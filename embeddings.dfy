/** The deterministic embedding engine of backend/app/embeddings.py.
    The BLAKE2b digest (RFC 7693, 64-byte output) of the UTF-8 encoded text is a
    parameter: the model reasons only about how its bytes become vector components. */
module Embeddings {
  import opened Wrappers
  import opened PyValues

  type Byte = b: int | 0 <= b < 256

  const DigestSize: int := 64

  /** A 64-byte digest. */
  type Digest = d: seq<Byte> | |d| == DigestSize witness seq(64, _ => 0)

  // ---------------------------------------------------------------- encode

  /** Unsigned big-endian value of a byte string (`int.from_bytes(b, 'big')`). */
  function BigEndian(b: seq<Byte>): nat
  {
    if b == [] then 0 else BigEndian(b[..|b| - 1]) * 256 + b[|b| - 1]
  }

  /** `data[idx : idx + 4]`, clipped at the end of the digest as Python slicing is. */
  function Window(d: Digest, idx: int): seq<Byte>
    requires 0 <= idx <= DigestSize
  {
    d[idx .. Min(idx + 4, DigestSize)]
  }

  /** `(v % 10000) / 5000.0 - 1.0` */
  function Component(v: nat): real
  {
    (v % 10000) as real / 5000.0 - 1.0
  }

  lemma MulMonotone(a: nat, b: nat, q: nat)
    requires a <= b
    ensures a * q <= b * q
  {
  }

  /** Every offset lies inside the digest, and once `dim` exceeds 64 every offset is 0. */
  lemma {:induction false} OffsetBound(i: nat, dim: int)
    requires 0 <= i < dim
    ensures 0 <= i * (DigestSize / dim) < DigestSize
    ensures dim > DigestSize ==> i * (DigestSize / dim) == 0
  {
    var q := DigestSize / dim;
    if dim <= DigestSize {
      assert q >= 1;
      MulMonotone(i, dim - 1, q);
      assert dim * q <= DigestSize;
      assert (dim - 1) * q == dim * q - q;
    }
  }

  /** Start of the bytes read for component `i`: `i * (len(data) // dim)`. It always lies
      inside the digest, and is 0 for every component once `dim` exceeds 64. */
  function Offset(i: nat, dim: int): (o: int)
    requires i < dim
    ensures 0 <= o < DigestSize
    ensures dim > DigestSize ==> o == 0
  {
    OffsetBound(i, dim);
    i * (DigestSize / dim)
  }

  lemma WindowLength(d: Digest, idx: int)
    requires 0 <= idx < DigestSize
    ensures 1 <= |Window(d, idx)| <= 4
    ensures |Window(d, idx)| < 4 <==> idx > DigestSize - 4
  {
  }

  /** Every component lies in [-1, 1). */
  lemma ComponentInRange(v: nat)
    ensures -1.0 <= Component(v) < 1.0
  {
    var m := v % 10000;
    assert 0 <= m <= 9999;
    assert (m as real) / 5000.0 <= 9999.0 / 5000.0;
  }

  /** The vector `encode` builds from a digest: `dim` components, none when `dim <= 0`. */
  function Embedding(d: Digest, dim: int): (r: seq<real>)
    ensures |r| == if dim <= 0 then 0 else dim
    ensures forall i :: 0 <= i < |r| ==> -1.0 <= r[i] < 1.0
  {
    if dim <= 0 then []
    else
      seq(dim, i requires 0 <= i < dim =>
        ComponentInRange(BigEndian(Window(d, Offset(i, dim))));
        Component(BigEndian(Window(d, Offset(i, dim)))))
  }

  /** What `encode` produces for an input: TypeError for a non-string, ValueError when the
      text is longer (in characters) than the limit, else the embedding of its digest. */
  function Encoding(text: Value, dim: int, maxInputChars: int, blake2b: string -> Digest)
    : (r: Result<seq<real>, Exception>)
    ensures r.Err? && r.error.TypeError? <==> !text.VStr?
    ensures r.Err? && r.error.ValueError? <==> text.VStr? && |text.s| > maxInputChars
    ensures r.Ok? ==> |r.value| == (if dim <= 0 then 0 else dim)
                      && forall i :: 0 <= i < |r.value| ==> -1.0 <= r.value[i] < 1.0
  {
    if !text.VStr? then Err(TypeError("text must be a string"))
    else if |text.s| > maxInputChars then Err(ValueError("input too large"))
    else Ok(Embedding(blake2b(text.s), dim))
  }

  /** Component `i` is determined by the (at most) four digest bytes at its offset. */
  lemma ComponentFromWindow(text: string, dim: int, maxInputChars: int, blake2b: string -> Digest, i: nat)
    requires |text| <= maxInputChars && 0 <= i < dim
    ensures Encoding(VStr(text), dim, maxInputChars, blake2b).Ok?
    ensures Encoding(VStr(text), dim, maxInputChars, blake2b).value[i]
        == Component(BigEndian(Window(blake2b(text), Offset(i, dim))))
  {
  }

  /** Above 64 dimensions every offset is 0, so all components are equal. */
  lemma LargeDimensionRepeats(d: Digest, dim: int)
    requires dim > DigestSize
    ensures forall i :: 0 <= i < dim ==> Embedding(d, dim)[i] == Embedding(d, dim)[0]
  {
    forall i | 0 <= i < dim
      ensures Embedding(d, dim)[i] == Embedding(d, dim)[0]
    {
      assert Offset(i, dim) == 0 == Offset(0, dim);
    }
  }

  /** Maps `encode` over the inputs; the first failure aborts the whole batch. */
  function BatchEncoding(inputs: seq<Value>, dim: int, maxInputChars: int, blake2b: string -> Digest)
    : (r: Result<seq<seq<real>>, Exception>)
    ensures r.Ok? ==>
      && |r.value| == |inputs|
      && forall k :: 0 <= k < |inputs| ==>
           Encoding(inputs[k], dim, maxInputChars, blake2b) == Ok(r.value[k])
    ensures r.Err? ==>
      exists k :: 0 <= k < |inputs|
        && Encoding(inputs[k], dim, maxInputChars, blake2b) == Err(r.error)
        && forall j :: 0 <= j < k ==> Encoding(inputs[j], dim, maxInputChars, blake2b).Ok?
    ensures r.Ok? <==> forall k :: 0 <= k < |inputs| ==> Encoding(inputs[k], dim, maxInputChars, blake2b).Ok?
  {
    if inputs == [] then Ok([])
    else
      match Encoding(inputs[0], dim, maxInputChars, blake2b)
      case Err(e) => Err(e)
      case Ok(v) =>
        match BatchEncoding(inputs[1..], dim, maxInputChars, blake2b)
        case Err(e) =>
          ghost var k :| 0 <= k < |inputs[1..]|
            && Encoding(inputs[1..][k], dim, maxInputChars, blake2b) == Err(e)
            && forall j :: 0 <= j < k ==> Encoding(inputs[1..][j], dim, maxInputChars, blake2b).Ok?;
          assert Encoding(inputs[k + 1], dim, maxInputChars, blake2b) == Err(e);
          Err(e)
        case Ok(vs) => Ok([v] + vs)
  }

  class EmbeddingEngine {
    const dim: int
    const maxInputChars: int

    constructor (dim: int := 8, maxInputChars: int := 10000)
      ensures this.dim == dim && this.maxInputChars == maxInputChars
    {
      this.dim := dim;
      this.maxInputChars := maxInputChars;
    }

    /** `encode`: type check, length check, then one component per loop iteration. */
    method Encode(text: Value, blake2b: string -> Digest) returns (r: Result<seq<real>, Exception>)
      ensures r == Encoding(text, dim, maxInputChars, blake2b)
    {
      if !text.VStr? {
        return Err(TypeError("text must be a string"));
      }
      if |text.s| > maxInputChars {
        return Err(ValueError("input too large"));
      }
      var data := blake2b(text.s);
      var out: seq<real> := [];
      var i := 0;
      while i < dim
        invariant 0 <= i <= (if dim <= 0 then 0 else dim)
        invariant |out| == i
        invariant forall k :: 0 <= k < i ==> out[k] == Embedding(data, dim)[k]
      {
        var idx := i * (|data| / dim);
        OffsetBound(i, dim);
        var b := data[idx .. Min(idx + 4, |data|)];
        var v := BigEndian(b);
        var f := (v % 10000) as real / 5000.0 - 1.0;
        out := out + [f];
        i := i + 1;
      }
      assert out == Embedding(data, dim);
      return Ok(out);
    }

    /** `encode_batch` */
    function EncodeBatch(inputs: seq<Value>, blake2b: string -> Digest): (r: Result<seq<seq<real>>, Exception>)
      ensures r.Ok? ==>
        && |r.value| == |inputs|
        && forall k :: 0 <= k < |inputs| ==> |r.value[k]| == (if dim <= 0 then 0 else dim)
    {
      BatchEncoding(inputs, dim, maxInputChars, blake2b)
    }
  }
}
