/** `chunk_text` of backend/app/embeddings.py: overlapping fixed-size windows over a text,
    and what is proved about them (termination, shape, count, overlap, reconstruction). */
module Chunking {
  import opened Wrappers
  import opened PyValues

  /** The chunks the loop of `chunk_text` emits from position `start` on: a window of at
      most `size` characters, then (unless it reached the end) the chunks from
      `end - overlap`. */
  function ChunksFrom(text: string, size: int, overlap: int, start: nat): (r: seq<string>)
    requires 0 <= overlap < size
    ensures r == [] <==> start >= |text|
    decreases |text| - start
  {
    if start >= |text| then []
    else
      var end := Min(start + size, |text|);
      if end == |text| then [text[start..end]]
      else [text[start..end]] + ChunksFrom(text, size, overlap, end - overlap)
  }

  /** What `chunk_text` returns: the parameter errors in the source's order, before the
      empty-text case. */
  function Chunking(text: string, chunkSize: int, overlap: int): (r: Result<seq<string>, Exception>)
    ensures r.Err? <==> chunkSize <= 0 || overlap < 0 || overlap >= chunkSize
    ensures r.Err? ==> r.error.ValueError?
    ensures r.Ok? ==> (r.value == [] <==> text == "")
  {
    if chunkSize <= 0 then Err(ValueError("chunk_size must be > 0"))
    else if overlap < 0 then Err(ValueError("overlap must be >= 0"))
    else if overlap >= chunkSize then Err(ValueError("overlap must be less than chunk_size"))
    else if text == "" then Ok([])
    else Ok(ChunksFrom(text, chunkSize, overlap, 0))
  }

  /** `chunk_text`: the windowing loop. */
  method ChunkText(text: string, chunkSize: int := 512, overlap: int := 0)
    returns (r: Result<seq<string>, Exception>)
    ensures r == Chunking(text, chunkSize, overlap)
  {
    if chunkSize <= 0 {
      return Err(ValueError("chunk_size must be > 0"));
    }
    if overlap < 0 {
      return Err(ValueError("overlap must be >= 0"));
    }
    if overlap >= chunkSize {
      return Err(ValueError("overlap must be less than chunk_size"));
    }
    if text == "" {
      return Ok([]);
    }
    var chunks: seq<string> := [];
    var start := 0;
    var n := |text|;
    while start < n
      invariant 0 <= start <= n
      invariant chunks + ChunksFrom(text, chunkSize, overlap, start) == ChunksFrom(text, chunkSize, overlap, 0)
      decreases n - start
    {
      var end := Min(start + chunkSize, n);
      chunks := chunks + [text[start..end]];
      if end == n {
        assert ChunksFrom(text, chunkSize, overlap, start) == [text[start..end]];
        break;
      }
      start := end - overlap;
    }
    assert ChunksFrom(text, chunkSize, overlap, 0) == chunks;
    return Ok(chunks);
  }

  // ---------------------------------------------------------------- properties

  /** Python's `"".join(chunks)`. */
  function Join(cs: seq<string>): string
  {
    if cs == [] then "" else cs[0] + Join(cs[1..])
  }

  /** `c[overlap:]` for each chunk, concatenated. */
  function Tails(cs: seq<string>, overlap: nat): string
  {
    if cs == [] then "" else cs[0][Min(overlap, |cs[0]|)..] + Tails(cs[1..], overlap)
  }

  /** `chunks[0] + "".join(c[overlap:] for c in chunks[1:])`: the chunks with the
      overlapping prefixes removed. */
  function Stitch(cs: seq<string>, overlap: nat): string
  {
    if cs == [] then "" else cs[0] + Tails(cs[1..], overlap)
  }

  /** `ceil(a / b)` for a positive `b`, and 0 for `a <= 0`. */
  function CeilDiv(a: int, b: nat): nat
    requires b > 0
    decreases a
  {
    if a <= 0 then 0 else 1 + CeilDiv(a - b, b)
  }

  /** `CeilDiv(a, b)` is the least `q` with `q * b >= a`. */
  lemma {:induction false} CeilDivIsCeiling(a: int, b: nat)
    requires b > 0 && a > 0
    ensures (CeilDiv(a, b) - 1) * b < a <= CeilDiv(a, b) * b
    decreases a
  {
    if a > b {
      CeilDivIsCeiling(a - b, b);
    }
  }

  /** Number of chunks for `m` remaining characters, `size`-long windows and starts `step` apart. */
  function ChunkCount(m: nat, size: nat, step: nat): nat
    requires step > 0
  {
    if m <= size then 1 else 1 + CeilDiv(m - size, step)
  }

  /** Chunk `k` of the chunks from `s` is the window starting `k` steps after `s`. */
  lemma {:induction false} ChunkAt(text: string, size: int, overlap: int, s: nat, k: nat)
    requires 0 <= overlap < size && s < |text|
    requires k < |ChunksFrom(text, size, overlap, s)|
    ensures s + k * (size - overlap) < |text|
    ensures ChunksFrom(text, size, overlap, s)[k]
         == text[s + k * (size - overlap) .. Min(s + k * (size - overlap) + size, |text|)]
    decreases |text| - s
  {
    if k > 0 {
      var end := Min(s + size, |text|);
      assert end < |text|;
      var next := end - overlap;
      ChunkAt(text, size, overlap, next, k - 1);
      assert next + (k - 1) * (size - overlap) == s + k * (size - overlap);
    }
  }

  /** The number of chunks: 1 when the text fits one window, else
      `1 + ceil((len - size) / (size - overlap))`. */
  lemma {:induction false} ChunkCountFrom(text: string, size: int, overlap: int, s: nat)
    requires 0 <= overlap < size && s < |text|
    ensures |ChunksFrom(text, size, overlap, s)| == ChunkCount(|text| - s, size, size - overlap)
    decreases |text| - s
  {
    var m := |text| - s;
    var step := size - overlap;
    if m > size {
      var next := s + step;
      ChunkCountFrom(text, size, overlap, next);
      assert CeilDiv(m - size, step) == 1 + CeilDiv(m - size - step, step);
    }
  }

  /** Chunks are non-empty windows of at most `chunk_size` characters; the first starts at
      position 0 and the last ends at the end of the text. */
  lemma ChunkShape(text: string, size: int, overlap: int)
    requires 0 <= overlap < size && text != ""
    ensures var cs := ChunksFrom(text, size, overlap, 0);
      && |cs| >= 1
      && (forall k :: 0 <= k < |cs| ==> 1 <= |cs[k]| <= size)
      && cs[0] == text[..Min(size, |text|)]
      && |cs[|cs| - 1]| <= |text| && cs[|cs| - 1] == text[|text| - |cs[|cs| - 1]|..]
  {
    LastChunkIsSuffix(text, size, overlap, 0);
    ChunkLengths(text, size, overlap, 0);
    ChunkAt(text, size, overlap, 0, 0);
  }

  lemma {:induction false} ChunkLengths(text: string, size: int, overlap: int, s: nat)
    requires 0 <= overlap < size && s < |text|
    ensures forall k :: 0 <= k < |ChunksFrom(text, size, overlap, s)| ==>
              1 <= |ChunksFrom(text, size, overlap, s)[k]| <= size
    decreases |text| - s
  {
    var end := Min(s + size, |text|);
    var cs := ChunksFrom(text, size, overlap, s);
    assert |text[s..end]| == end - s;
    if end == |text| {
      assert cs == [text[s..end]];
    } else {
      var rest := ChunksFrom(text, size, overlap, end - overlap);
      ChunkLengths(text, size, overlap, end - overlap);
      assert cs == [text[s..end]] + rest;
      forall k | 0 <= k < |cs|
        ensures 1 <= |cs[k]| <= size
      {
        if k > 0 {
          assert cs[k] == rest[k - 1];
        }
      }
    }
  }

  lemma {:induction false} LastChunkIsSuffix(text: string, size: int, overlap: int, s: nat)
    requires 0 <= overlap < size && s < |text|
    ensures var cs := ChunksFrom(text, size, overlap, s);
      |cs| >= 1 && |cs[|cs| - 1]| <= |text| && cs[|cs| - 1] == text[|text| - |cs[|cs| - 1]|..]
    decreases |text| - s
  {
    var end := Min(s + size, |text|);
    if end < |text| {
      LastChunkIsSuffix(text, size, overlap, end - overlap);
    }
  }

  /** For `len(text) > overlap` the count is `ceil((len - overlap) / (size - overlap))`;
      when `len(text) <= overlap` it is 1. */
  lemma ChunkCountClosedForm(text: string, size: int, overlap: int)
    requires 0 <= overlap < size && text != ""
    ensures |text| > overlap ==>
      |ChunksFrom(text, size, overlap, 0)| == CeilDiv(|text| - overlap, size - overlap)
    ensures |text| <= overlap ==> |ChunksFrom(text, size, overlap, 0)| == 1
  {
    var n, step := |text|, size - overlap;
    ChunkCountFrom(text, size, overlap, 0);
    if n > overlap {
      assert CeilDiv(n - overlap, step) == 1 + CeilDiv(n - overlap - step, step);
    }
  }

  /** Consecutive chunks share exactly `overlap` characters: every chunk but the last is
      `chunk_size` long, the next one is longer than `overlap`, and the tail of the one is
      the head of the other. */
  lemma {:induction false} ConsecutiveChunksOverlap(text: string, size: int, overlap: int, s: nat, k: nat)
    requires 0 <= overlap < size && s < |text|
    requires k + 1 < |ChunksFrom(text, size, overlap, s)|
    ensures var cs := ChunksFrom(text, size, overlap, s);
      && |cs[k]| == size && |cs[k + 1]| > overlap
      && cs[k][size - overlap..] == cs[k + 1][..overlap]
    decreases |text| - s
  {
    var cs := ChunksFrom(text, size, overlap, s);
    var end := Min(s + size, |text|);
    var next := end - overlap;
    assert end < |text|;
    var rest := ChunksFrom(text, size, overlap, next);
    assert cs == [text[s..end]] + rest;
    if k > 0 {
      ConsecutiveChunksOverlap(text, size, overlap, next, k - 1);
      assert cs[k] == rest[k - 1] && cs[k + 1] == rest[k];
    } else {
      var nextEnd := Min(next + size, |text|);
      assert rest[0] == text[next..nextEnd];
      assert cs[0][size - overlap..] == text[next..end];
      assert cs[1][..overlap] == text[next..end];
    }
  }

  /** The tails of the chunks from a continuation start `s` (one whose first `overlap`
      characters the previous chunk already covered) spell out the rest of the text. */
  lemma {:induction false} TailsOfContinuation(text: string, size: int, overlap: int, s: nat)
    requires 0 <= overlap < size && s + overlap < |text|
    ensures Tails(ChunksFrom(text, size, overlap, s), overlap) == text[s + overlap..]
    decreases |text| - s
  {
    var cs := ChunksFrom(text, size, overlap, s);
    var end := Min(s + size, |text|);
    var head := text[s..end];
    assert |head| > overlap;
    assert head[overlap..] == text[s + overlap..end];
    if end == |text| {
      assert cs == [head];
    } else {
      var next := end - overlap;
      assert cs == [head] + ChunksFrom(text, size, overlap, next);
      TailsOfContinuation(text, size, overlap, next);
      assert cs[1..] == ChunksFrom(text, size, overlap, next);
      assert text[s + overlap..] == text[s + overlap..end] + text[end..];
    }
  }

  /** Removing the overlapping prefix of every chunk after the first and concatenating
      gives back the text. */
  lemma Reconstruction(text: string, size: int, overlap: int)
    requires 0 <= overlap < size
    ensures Chunking(text, size, overlap).Ok?
    ensures Stitch(Chunking(text, size, overlap).value, overlap) == text
  {
    if text != "" {
      var cs := ChunksFrom(text, size, overlap, 0);
      var end := Min(size, |text|);
      if end < |text| {
        TailsOfContinuation(text, size, overlap, end - overlap);
        assert cs[1..] == ChunksFrom(text, size, overlap, end - overlap);
        assert text == text[..end] + text[end..];
      }
    }
  }

  lemma {:induction false} TailsWithoutOverlap(cs: seq<string>)
    ensures Tails(cs, 0) == Join(cs)
  {
    if cs != [] {
      TailsWithoutOverlap(cs[1..]);
      assert cs[0][Min(0, |cs[0]|)..] == cs[0];
    }
  }

  /** Plain concatenation of the chunks gives back the text when `overlap == 0`. */
  lemma JoinReconstructsWithoutOverlap(text: string, size: int)
    requires size > 0
    ensures Chunking(text, size, 0).Ok?
    ensures Join(Chunking(text, size, 0).value) == text
  {
    Reconstruction(text, size, 0);
    var cs := Chunking(text, size, 0).value;
    if cs != [] {
      TailsWithoutOverlap(cs[1..]);
    }
  }

  /** With overlap 1 plain concatenation repeats the shared characters. */
  lemma JoinWithOverlapRepeats()
    ensures Chunking("abcdefghij", 4, 1) == Ok(["abcd", "defg", "ghij"])
    ensures Join(["abcd", "defg", "ghij"]) != "abcdefghij"
  {
    var t := "abcdefghij";
    assert t[6..10] == "ghij" && t[3..7] == "defg" && t[0..4] == "abcd";
    assert ChunksFrom(t, 4, 1, 6) == ["ghij"];
    assert ChunksFrom(t, 4, 1, 3) == ["defg"] + ChunksFrom(t, 4, 1, 6);
    assert ChunksFrom(t, 4, 1, 0) == ["abcd"] + ChunksFrom(t, 4, 1, 3);
    assert ChunksFrom(t, 4, 1, 0) == ["abcd", "defg", "ghij"];
    assert Chunking(t, 4, 1) == Ok(ChunksFrom(t, 4, 1, 0));
    assert |Join(["abcd", "defg", "ghij"])| == 12;
  }

  /** The worked example `chunk("abcdefgh", 4, 2) == ["abcd", "cdef", "efgh"]`. */
  lemma OverlapExample()
    ensures Chunking("abcdefgh", 4, 2) == Ok(["abcd", "cdef", "efgh"])
  {
    var t := "abcdefgh";
    assert t[4..8] == "efgh" && t[2..6] == "cdef" && t[0..4] == "abcd";
    assert ChunksFrom(t, 4, 2, 4) == ["efgh"];
    assert ChunksFrom(t, 4, 2, 2) == ["cdef"] + ChunksFrom(t, 4, 2, 4);
    assert ChunksFrom(t, 4, 2, 0) == ["abcd"] + ChunksFrom(t, 4, 2, 2);
    assert ChunksFrom(t, 4, 2, 0) == ["abcd", "cdef", "efgh"];
    assert Chunking(t, 4, 2) == Ok(ChunksFrom(t, 4, 2, 0));
  }

  /** Parameter errors come first, in the order chunk_size, overlap sign, overlap size; only
      valid parameters reach the empty-text case. */
  lemma ChunkingErrors(text: string, size: int, overlap: int)
    ensures Chunking(text, size, overlap).Err? <==> size <= 0 || overlap < 0 || overlap >= size
    ensures size <= 0 ==> Chunking(text, size, overlap) == Err(ValueError("chunk_size must be > 0"))
    ensures size > 0 && overlap < 0 ==> Chunking(text, size, overlap) == Err(ValueError("overlap must be >= 0"))
    ensures size > 0 && overlap >= 0 && overlap >= size ==>
      Chunking(text, size, overlap) == Err(ValueError("overlap must be less than chunk_size"))
    ensures 0 <= overlap < size ==> (Chunking(text, size, overlap) == Ok([]) <==> text == "")
  {
    if 0 <= overlap < size && text != "" {
      ChunkShape(text, size, overlap);
    }
  }
}
