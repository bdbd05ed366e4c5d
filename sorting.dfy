/** Python's ordering of `str` values (lexicographic by code point, a proper prefix first)
    and the built-in `sorted`, which `list_models` applies to a directory listing. */
module Sorting {

  /** `a <= b` on Python strings. */
  predicate StrLeq(a: string, b: string)
    decreases |a|
  {
    a == [] || (b != [] && (a[0] < b[0] || (a[0] == b[0] && StrLeq(a[1..], b[1..]))))
  }

  lemma {:induction false} StrLeqReflexive(a: string)
    ensures StrLeq(a, a)
    decreases |a|
  {
    if a != [] {
      StrLeqReflexive(a[1..]);
    }
  }

  lemma {:induction false} StrLeqTotal(a: string, b: string)
    ensures StrLeq(a, b) || StrLeq(b, a)
    decreases |a|
  {
    if a != [] && b != [] && a[0] == b[0] {
      StrLeqTotal(a[1..], b[1..]);
    }
  }

  lemma {:induction false} StrLeqAntisymmetric(a: string, b: string)
    requires StrLeq(a, b) && StrLeq(b, a)
    ensures a == b
    decreases |a|
  {
    if a != [] {
      StrLeqAntisymmetric(a[1..], b[1..]);
      assert a == [a[0]] + a[1..] && b == [b[0]] + b[1..];
    }
  }

  lemma {:induction false} StrLeqTransitive(a: string, b: string, c: string)
    requires StrLeq(a, b) && StrLeq(b, c)
    ensures StrLeq(a, c)
    decreases |a|
  {
    if a != [] && a[0] == b[0] && b[0] == c[0] {
      StrLeqTransitive(a[1..], b[1..], c[1..]);
    }
  }

  predicate Sorted(s: seq<string>)
  {
    forall i, j :: 0 <= i < j < |s| ==> StrLeq(s[i], s[j])
  }

  /** Every element of `xs` is at least `lo`. */
  predicate AllAtLeast(lo: string, xs: seq<string>)
  {
    forall k :: 0 <= k < |xs| ==> StrLeq(lo, xs[k])
  }

  lemma AllAtLeastPermutation(lo: string, xs: seq<string>, ys: seq<string>)
    requires multiset(xs) == multiset(ys)
    requires AllAtLeast(lo, xs)
    ensures AllAtLeast(lo, ys)
  {
    forall k | 0 <= k < |ys|
      ensures StrLeq(lo, ys[k])
    {
      assert ys[k] in multiset(xs);
      var j :| 0 <= j < |xs| && xs[j] == ys[k];
    }
  }

  /** Insert `x` into a list after the leading elements not above it. */
  function Insert(x: string, s: seq<string>): (r: seq<string>)
    ensures multiset(r) == multiset(s) + multiset{x}
    decreases |s|
  {
    if s == [] then [x]
    else if StrLeq(s[0], x) then
      assert s == [s[0]] + s[1..];
      [s[0]] + Insert(x, s[1..])
    else [x] + s
  }

  lemma {:induction false} InsertSorted(x: string, s: seq<string>)
    requires Sorted(s)
    ensures Sorted(Insert(x, s))
    decreases |s|
  {
    if s == [] {
    } else if StrLeq(s[0], x) {
      var tail := Insert(x, s[1..]);
      SortedTail(s);
      InsertSorted(x, s[1..]);
      HeadBoundsRest(x, s);
      AllAtLeastPermutation(s[0], s[1..] + [x], tail);
      SortedCons(s[0], tail);
      assert Insert(x, s) == [s[0]] + tail;
    } else {
      StrLeqTotal(s[0], x);
      forall k | 0 <= k < |s|
        ensures StrLeq(x, s[k])
      {
        if k > 0 {
          StrLeqTransitive(x, s[0], s[k]);
        }
      }
      SortedCons(x, s);
    }
  }

  /** The head of a sorted list bounds its tail and any element above the head. */
  lemma HeadBoundsRest(x: string, s: seq<string>)
    requires Sorted(s) && s != [] && StrLeq(s[0], x)
    ensures AllAtLeast(s[0], s[1..] + [x])
  {
    forall k | 0 <= k < |s[1..] + [x]|
      ensures StrLeq(s[0], (s[1..] + [x])[k])
    {
      if k < |s| - 1 {
        assert (s[1..] + [x])[k] == s[k + 1];
      }
    }
  }

  /** A lower bound of a sorted list can be put in front of it. */
  lemma SortedCons(x: string, s: seq<string>)
    requires Sorted(s) && AllAtLeast(x, s)
    ensures Sorted([x] + s)
  {
    forall i, j | 0 <= i < j < |s| + 1
      ensures StrLeq(([x] + s)[i], ([x] + s)[j])
    {
      if i > 0 {
        assert ([x] + s)[i] == s[i - 1];
      }
      assert ([x] + s)[j] == s[j - 1];
    }
  }

  /** `sorted(xs)`: the elements of `xs` in ascending order. */
  function Sort(xs: seq<string>): (r: seq<string>)
    ensures Sorted(r)
    ensures multiset(r) == multiset(xs)
  {
    if xs == [] then []
    else
      assert xs == xs[..|xs| - 1] + [xs[|xs| - 1]];
      var rest := Sort(xs[..|xs| - 1]);
      InsertSorted(xs[|xs| - 1], rest);
      Insert(xs[|xs| - 1], rest)
  }

  /** The head of a sorted list is its least element. */
  lemma HeadIsLeast(a: seq<string>, x: string)
    requires Sorted(a) && x in multiset(a)
    ensures StrLeq(a[0], x)
  {
    var j :| 0 <= j < |a| && a[j] == x;
    if j == 0 {
      StrLeqReflexive(x);
    }
  }

  lemma SortedTail(a: seq<string>)
    requires Sorted(a) && a != []
    ensures Sorted(a[1..])
  {
    forall i, j | 0 <= i < j < |a| - 1
      ensures StrLeq(a[1..][i], a[1..][j])
    {
      assert a[1..][i] == a[i + 1] && a[1..][j] == a[j + 1];
    }
  }

  lemma MultisetTail(a: seq<string>)
    requires a != []
    ensures multiset(a[1..]) == multiset(a) - multiset{a[0]}
  {
    assert a == [a[0]] + a[1..];
  }

  /** A sorted arrangement of a multiset is unique, so the result above is the one any
      correct sorting algorithm, Python's included, returns. */
  lemma {:induction false} SortedUnique(a: seq<string>, b: seq<string>)
    requires Sorted(a) && Sorted(b)
    requires multiset(a) == multiset(b)
    ensures a == b
    decreases |a|
  {
    SameLength(a, b);
    if a != [] {
      HeadIsLeast(a, b[0]);
      HeadIsLeast(b, a[0]);
      StrLeqAntisymmetric(a[0], b[0]);
      SortedTail(a);
      SortedTail(b);
      MultisetTail(a);
      MultisetTail(b);
      SortedUnique(a[1..], b[1..]);
      SameHeadAndTail(a, b);
    }
  }

  lemma SameHeadAndTail(a: seq<string>, b: seq<string>)
    requires a != [] && b != [] && a[0] == b[0] && a[1..] == b[1..]
    ensures a == b
  {
    assert a == [a[0]] + a[1..];
    assert b == [b[0]] + b[1..];
  }

  lemma SameLength(a: seq<string>, b: seq<string>)
    requires multiset(a) == multiset(b)
    ensures |a| == |b|
    ensures a != [] ==> b[0] in multiset(a) && a[0] in multiset(b)
  {
    assert |a| == |multiset(a)| && |b| == |multiset(b)|;
    if a != [] {
      assert b[0] in multiset(b) && a[0] in multiset(a);
    }
  }

  /** Sorting only depends on the multiset of elements: the order a directory is listed in
      does not change the result. */
  lemma SortIgnoresOrder(xs: seq<string>, ys: seq<string>)
    requires multiset(xs) == multiset(ys)
    ensures Sort(xs) == Sort(ys)
  {
    SortedUnique(Sort(xs), Sort(ys));
  }
}
