/** Bytes, errors and the fixed-width integer codec shared by every serialisable
    type of the model, together with the abstract codec that stands for an
    element type implementing `BinarySizer`, `io.WriterTo` and `io.ReaderFrom`.

    Byte order: every fixed-width integer is written little-endian. */
module Wire {

  /** An octet, as Go's `byte`. */
  type byte = b: int | 0 <= b < 256

  const TwoTo63: nat := 0x8000_0000_0000_0000
  const TwoTo64: nat := 0x1_0000_0000_0000_0000

  /** Go's `uint64`. */
  type Uint64 = x: int | 0 <= x < 0x1_0000_0000_0000_0000

  datatype Option<+T> = None | Some(value: T)

  /** The context a wrapped error carries: the prefix of the source's `fmt.Errorf`. */
  datatype Site = ReadAsUint64 | WriteAsUint64 | VectorReadFrom | VectorWriteTo

  datatype Error =
    | ShortRead       // the source ended before the value did
    | ShortWrite      // the sink accepted fewer bytes than it was given
    | ShortBuffer     // a preallocated slice is smaller than the value
    | NegativeLength  // a length prefix that is negative once read as an int
    | Wrapped(site: Site, cause: Error)

  datatype Result<+T> = Ok(value: T) | Err(error: Error)

  /** What a decoder reports: the value or the error, and how many bytes it consumed. */
  datatype Decoded<+T> = Decoded(value: Result<T>, n: nat)

  /** The byte-level behaviour of an element type: `BinarySize`, the bytes
      `WriteTo` emits, and what `ReadFrom` makes of the bytes ahead of it. */
  datatype Codec<!T> = Codec(size: T -> nat, enc: T -> seq<byte>, dec: seq<byte> -> Decoded<T>)

  /** A decoder never reports more bytes than there are. */
  ghost predicate Bounded<T>(c: Codec<T>)
  {
    forall bs :: c.dec(bs).n <= |bs|
  }

  /** The laws every element type is expected to keep: `BinarySize` is the
      length of the encoding, and decoding an encoding (whatever follows it)
      gives back the value after consuming exactly its bytes. */
  ghost predicate Lawful<T(!new)>(c: Codec<T>)
  {
    && Bounded(c)
    && (forall x :: |c.enc(x)| == c.size(x))
    && (forall x, rest :: c.dec(c.enc(x) + rest) == Decoded(Ok(x), |c.enc(x)|))
  }

  /** The bytes after the first `k`, or none when there are fewer than `k`. */
  function Drop(bs: seq<byte>, k: nat): (r: seq<byte>)
    ensures k <= |bs| ==> r == bs[k..]
  {
    if k <= |bs| then bs[k..] else []
  }

  function Min(a: nat, b: nat): nat
  {
    if a <= b then a else b
  }

  lemma AppendAssoc(a: seq<byte>, b: seq<byte>, c: seq<byte>)
    ensures (a + b) + c == a + (b + c)
  {
  }

  /** Dropping `a` bytes and then `b` more drops `a + b`. */
  lemma DropDrop(bs: seq<byte>, a: nat, b: nat)
    requires a + b <= |bs|
    ensures bs[a..][b..] == bs[a + b..]
  {
  }

  /** Appending the first `k` bytes of `x` to a prefix `e[..n]` of `e` that
      `x` continues gives the longer prefix `e[..n + k]`. */
  lemma GrowPrefix(pre: seq<byte>, e: seq<byte>, n: nat, x: seq<byte>, k: nat)
    requires n + |x| <= |e| && e[..n + |x|] == e[..n] + x && k <= |x|
    ensures (pre + e[..n]) + x[..k] == pre + e[..n + k]
  {
    assert e[..n + k] == e[..n + |x|][..n + k];
    assert (e[..n] + x)[..n + k] == e[..n] + x[..k];
  }

  function Pow256(k: nat): (p: nat)
    ensures p > 0
  {
    if k == 0 then 1 else 256 * Pow256(k - 1)
  }

  /** The `k` low-order bytes of `x`, least significant first. */
  function LittleEndian(x: nat, k: nat): (bs: seq<byte>)
    ensures |bs| == k
  {
    if k == 0 then [] else [x % 256] + LittleEndian(x / 256, k - 1)
  }

  /** The number whose little-endian bytes are `bs`. */
  function FromLittleEndian(bs: seq<byte>): (x: nat)
    ensures x < Pow256(|bs|)
  {
    if bs == [] then 0 else bs[0] + 256 * FromLittleEndian(bs[1..])
  }

  lemma {:induction false} LittleEndianRoundTrip(x: nat, k: nat)
    requires x < Pow256(k)
    ensures FromLittleEndian(LittleEndian(x, k)) == x
  {
    if k > 0 {
      var p := Pow256(k - 1);
      assert x / 256 < p;
      LittleEndianRoundTrip(x / 256, k - 1);
      assert LittleEndian(x, k)[1..] == LittleEndian(x / 256, k - 1);
    }
  }

  /** `buffer.WriteAsUint64`: eight little-endian bytes. */
  function EncodeUint64(x: Uint64): (bs: seq<byte>)
    ensures |bs| == 8
  {
    LittleEndian(x, 8)
  }

  /** `buffer.ReadAsUint64`: eight little-endian bytes, or a short read that
      consumes nothing. */
  function DecodeUint64(bs: seq<byte>): (d: Decoded<Uint64>)
    ensures d.n <= |bs|
  {
    if |bs| < 8 then Decoded(Err(ShortRead), 0)
    else
      assert Pow256(8) == TwoTo64;
      Decoded(Ok(FromLittleEndian(bs[..8])), 8)
  }

  /** The eight bytes of `x`, whatever follows them, read back as `x`. */
  lemma DecodeUint64Encoded(x: Uint64, rest: seq<byte>)
    ensures DecodeUint64(EncodeUint64(x) + rest) == Decoded(Ok(x), 8)
  {
    assert Pow256(8) == TwoTo64;
    LittleEndianRoundTrip(x, 8);
    assert (EncodeUint64(x) + rest)[..8] == EncodeUint64(x);
  }

  /** The codec of the fixed-width primitive `uint64`, as used for headers and
      for `Matrix[uint64]` elements. */
  function Uint64Codec(): Codec<Uint64>
  {
    Codec(_ => 8, EncodeUint64, DecodeUint64)
  }

  lemma Uint64CodecBounded()
    ensures Bounded(Uint64Codec())
  {
  }

  lemma Uint64CodecLawful()
    ensures Lawful(Uint64Codec())
  {
    forall x: Uint64, rest: seq<byte>
      ensures DecodeUint64(EncodeUint64(x) + rest) == Decoded(Ok(x), 8)
    {
      DecodeUint64Encoded(x, rest);
    }
  }

  /** Go's `int(u)` on a 64-bit platform: the two's-complement reading of `u`. */
  function ToInt64(u: Uint64): (i: int)
    ensures -(TwoTo63 as int) <= i < TwoTo63
    ensures i >= 0 <==> u < TwoTo63
    ensures u < TwoTo63 ==> i == u
    ensures i < 0 ==> i == u - TwoTo64
  {
    if u < TwoTo63 then u else u - TwoTo64
  }
}
