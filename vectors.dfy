/** The layout of `Vector[T]`, each row of a `Matrix[T]`: an eight-byte
    element count followed by the elements in order. Only that layout is
    modelled here; the matrix reads and writes each row through it. */
module Vectors {
  import opened Wire
  import opened Sequences

  /** A Go slice: its length fits a non-negative `int`. */
  type Vec<T> = v: seq<T> | |v| < 0x8000_0000_0000_0000 witness []

  /** `Vector[T].BinarySize`: the count header plus the elements. */
  function VecSize<T>(c: Codec<T>, v: seq<T>): nat
  {
    8 + ElemsSize(c, v)
  }

  /** `Vector[T].WriteTo`: `[count: u64][element_0]...[element_{count-1}]`. */
  function VecEncode<T>(c: Codec<T>, v: Vec<T>): seq<byte>
  {
    EncodeUint64(|v|) + ElemsEncode(c, v)
  }

  /** `Vector[T].ReadFrom`: the count header, then that many elements. A count
      that is negative as an `int` is refused. */
  function VecDecode<T>(c: Codec<T>, bs: seq<byte>): (d: Decoded<Vec<T>>)
    ensures Bounded(c) ==> d.n <= |bs|
  {
    var h := DecodeUint64(bs);
    match h.value
    case Err(e) => Decoded(Err(e), h.n)
    case Ok(u) =>
      var count := ToInt64(u);
      if count < 0 then Decoded(Err(NegativeLength), h.n)
      else
        var p := DecodeElems(c, bs[h.n..], count);
        Decoded(if p.err.None? then Ok(p.items) else Err(p.err.value), h.n + p.n)
  }

  /** `Vector[T]` as an element type in its own right: the codec of a row. */
  function VecCodec<T>(c: Codec<T>): Codec<Vec<T>>
  {
    Codec(v => VecSize(c, v), v => VecEncode(c, v), bs => VecDecode(c, bs))
  }

  /** Reading back the bytes of a vector, whatever follows them, gives the
      vector after consuming exactly its bytes. */
  lemma VecRoundTrip<T(!new)>(c: Codec<T>, v: Vec<T>, rest: seq<byte>)
    requires Lawful(c)
    ensures VecDecode(c, VecEncode(c, v) + rest) == Decoded(Ok(v), |VecEncode(c, v)|)
  {
    var bs := VecEncode(c, v) + rest;
    var body := ElemsEncode(c, v) + rest;
    assert bs == EncodeUint64(|v|) + body;
    assert Pow256(8) == TwoTo64;
    LittleEndianRoundTrip(|v|, 8);
    assert bs[..8] == EncodeUint64(|v|);
    assert bs[8..] == body;
    ElemsRoundTrip(c, v, rest);
  }

  lemma VecCodecBounded<T>(c: Codec<T>)
    ensures Bounded(c) ==> Bounded(VecCodec(c))
  {
    if Bounded(c) {
      forall bs: seq<byte>
        ensures VecCodec(c).dec(bs).n <= |bs|
      {
        assert VecCodec(c).dec(bs) == VecDecode(c, bs);
      }
    }
  }

  /** The layout of a vector keeps the element laws: its size is the length
      of its bytes, and it reads back exactly. */
  lemma VecCodecLawful<T(!new)>(c: Codec<T>)
    requires Lawful(c)
    ensures Lawful(VecCodec(c))
  {
    var vc := VecCodec(c);
    forall bs: seq<byte>
      ensures vc.dec(bs).n <= |bs|
    {
      assert vc.dec(bs) == VecDecode(c, bs);
    }
    forall v: Vec<T>
      ensures |vc.enc(v)| == vc.size(v)
    {
      ElemsEncodeLength(c, v);
    }
    forall v: Vec<T>, rest: seq<byte>
      ensures vc.dec(vc.enc(v) + rest) == Decoded(Ok(v), |vc.enc(v)|)
    {
      VecRoundTrip(c, v, rest);
    }
  }
}
