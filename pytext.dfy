/** The pieces of Python's `str` behaviour that the service relies on:
    `str.lower()` (ASCII case fold), `str.split()` with no argument,
    `str(n)` for an integer and `int(s)` for a decimal string. */
module PyText {
  import opened Wrappers

  // ---------------------------------------------------------------- case folding

  function LowerChar(c: char): char
  {
    if 'A' <= c <= 'Z' then (c as int + 32) as char else c
  }

  /** `s.lower()`, restricted to the ASCII letters. */
  function Lower(s: string): (r: string)
    ensures |r| == |s|
    ensures forall i :: 0 <= i < |s| ==> r[i] == LowerChar(s[i])
  {
    seq(|s|, i requires 0 <= i < |s| => LowerChar(s[i]))
  }

  // ---------------------------------------------------------------- splitting

  /** The characters Python's `str.isspace()` accepts, which `str.split()` splits on. */
  predicate IsSpace(c: char)
  {
    var n := c as int;
    (0x09 <= n <= 0x0D) || (0x1C <= n <= 0x20) || n == 0x85 || n == 0xA0 || n == 0x1680
    || (0x2000 <= n <= 0x200A) || n == 0x2028 || n == 0x2029 || n == 0x202F || n == 0x205F
    || n == 0x3000
  }

  /** Length of the longest prefix of `s` free of separators. */
  function RunLength(s: string, isSep: char -> bool): (n: nat)
    ensures n <= |s|
    ensures forall i :: 0 <= i < n ==> !isSep(s[i])
    ensures n < |s| ==> isSep(s[n])
  {
    if s == [] || isSep(s[0]) then 0 else 1 + RunLength(s[1..], isSep)
  }

  predicate NoSeparator(w: string, isSep: char -> bool)
  {
    forall i :: 0 <= i < |w| ==> !isSep(w[i])
  }

  /** The maximal separator-free pieces of `s`, left to right; runs of separators and
      separators at either end produce no empty pieces (Python's `str.split()`). */
  function SplitOn(s: string, isSep: char -> bool): (r: seq<string>)
    ensures forall k :: 0 <= k < |r| ==> |r[k]| > 0 && NoSeparator(r[k], isSep)
    decreases |s|
  {
    if s == [] then []
    else if isSep(s[0]) then SplitOn(s[1..], isSep)
    else
      var n := RunLength(s, isSep);
      [s[..n]] + SplitOn(s[n..], isSep)
  }

  /** `s.split()` */
  function Words(s: string): seq<string>
  {
    SplitOn(s, IsSpace)
  }

  lemma {:induction false} SplitSingle(w: string, isSep: char -> bool)
    requires |w| > 0 && NoSeparator(w, isSep)
    ensures SplitOn(w, isSep) == [w]
  {
    assert !isSep(w[0]);
    var n := RunLength(w, isSep);
    assert n == |w|;
    assert w[..n] == w && w[n..] == [];
    assert SplitOn(w, isSep) == [w[..n]] + SplitOn(w[n..], isSep);
  }

  /** A separator-free word followed by a separator splits off as the first piece. */
  lemma {:induction false} SplitCons(a: string, sep: char, rest: string, isSep: char -> bool)
    requires |a| > 0 && NoSeparator(a, isSep)
    requires isSep(sep)
    ensures SplitOn(a + [sep] + rest, isSep) == [a] + SplitOn(rest, isSep)
  {
    var s := a + [sep] + rest;
    var n := RunLength(s, isSep);
    assert forall i :: 0 <= i < |a| ==> s[i] == a[i];
    assert s[|a|] == sep;
    assert n == |a|;
    assert s[..n] == a;
    assert s[n..] == [sep] + rest;
    assert s[n..][1..] == rest;
  }

  /** A string made of two separator-free words joined by one separator splits into exactly
      those two words. */
  lemma SplitTwo(a: string, sep: char, b: string, isSep: char -> bool)
    requires |a| > 0 && NoSeparator(a, isSep)
    requires |b| > 0 && NoSeparator(b, isSep)
    requires isSep(sep)
    ensures SplitOn(a + [sep] + b, isSep) == [a, b]
  {
    SplitCons(a, sep, b, isSep);
    SplitSingle(b, isSep);
  }

  /** `sep.join(parts)` */
  function JoinOn(parts: seq<string>, sep: char): string
  {
    if parts == [] then []
    else if |parts| == 1 then parts[0]
    else parts[0] + [sep] + JoinOn(parts[1..], sep)
  }

  /** Splitting undoes joining when the pieces are non-empty and free of the separator. */
  lemma {:induction false} SplitOfJoin(parts: seq<string>, sep: char, isSep: char -> bool)
    requires isSep(sep)
    requires forall k :: 0 <= k < |parts| ==> |parts[k]| > 0 && NoSeparator(parts[k], isSep)
    ensures SplitOn(JoinOn(parts, sep), isSep) == parts
    decreases |parts|
  {
    if parts == [] {
    } else if |parts| == 1 {
      SplitSingle(parts[0], isSep);
    } else {
      SplitCons(parts[0], sep, JoinOn(parts[1..], sep), isSep);
      SplitOfJoin(parts[1..], sep, isSep);
    }
  }

  // ---------------------------------------------------------------- integers

  predicate IsDigit(c: char)
  {
    '0' <= c <= '9'
  }

  predicate AllDigits(s: string)
  {
    forall i :: 0 <= i < |s| ==> IsDigit(s[i])
  }

  function DigitChar(d: int): (c: char)
    requires 0 <= d < 10
    ensures IsDigit(c)
  {
    ('0' as int + d) as char
  }

  /** Decimal digits of a natural number, most significant first, no leading zeros. */
  function NatToDecimal(n: nat): (s: string)
    ensures |s| > 0 && AllDigits(s)
    decreases n
  {
    if n < 10 then [DigitChar(n)] else NatToDecimal(n / 10) + [DigitChar(n % 10)]
  }

  /** `str(i)` for a Python `int`. */
  function IntToDecimal(i: int): (s: string)
    ensures |s| > 0
    ensures forall k :: 0 <= k < |s| ==> !IsSpace(s[k])
  {
    if i < 0 then "-" + NatToDecimal(-i) else NatToDecimal(i)
  }

  /** Value of a string of decimal digits. */
  function DigitsValue(s: string): nat
    requires AllDigits(s)
  {
    if s == [] then 0 else DigitsValue(s[..|s| - 1]) * 10 + (s[|s| - 1] as int - '0' as int)
  }

  /** `int(s)` for a string: an optional sign followed by one or more ASCII digits;
      anything else is Python's ValueError, here None. */
  function ParseInt(s: string): Option<int>
  {
    if |s| > 1 && s[0] == '-' && AllDigits(s[1..]) then Some(-(DigitsValue(s[1..]) as int))
    else if |s| > 1 && s[0] == '+' && AllDigits(s[1..]) then Some(DigitsValue(s[1..]))
    else if |s| > 0 && AllDigits(s) then Some(DigitsValue(s))
    else None
  }

  lemma {:induction false} DecimalDigitsRoundTrip(n: nat)
    ensures DigitsValue(NatToDecimal(n)) == n
    decreases n
  {
    if n >= 10 {
      var s := NatToDecimal(n);
      var prefix := NatToDecimal(n / 10);
      assert s == prefix + [DigitChar(n % 10)];
      assert s[..|s| - 1] == prefix;
      DecimalDigitsRoundTrip(n / 10);
    }
  }

  /** `int(str(i)) == i`: the decimal rendering of an integer parses back to it. */
  lemma ParseIntOfDecimal(i: int)
    ensures ParseInt(IntToDecimal(i)) == Some(i)
  {
    var s := IntToDecimal(i);
    if i < 0 {
      assert s[1..] == NatToDecimal(-i);
      DecimalDigitsRoundTrip(-i);
    } else {
      DecimalDigitsRoundTrip(i);
    }
  }
}
