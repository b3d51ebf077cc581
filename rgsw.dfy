/** The RGSW ciphertext of core/rgsw/elements.go: a fixed pair of gadget
    ciphertexts whose size, bytes and levels are those of its two halves.
    The gadget ciphertext itself is abstract: the model knows only its two
    levels, its codec and how it is allocated. */
module Rgsw {
  import opened Wire
  import opened Buffer

  /** What the model knows of `rlwe.GadgetCiphertext`: its levels, its codec,
      and `rlwe.NewGadgetCiphertext(params, 1, levelQ, levelP,
      BaseTwoDecomposition)` for fixed parameters, as a function of its last
      three arguments. */
  datatype Gadget<!G> = Gadget(
    levelQ: G -> int,
    levelP: G -> int,
    codec: Codec<G>,
    alloc: (int, int, int) -> G)

  /** The allocator builds a gadget ciphertext at the levels it is asked for. */
  ghost predicate AllocKeepsLevels<G>(g: Gadget<G>)
  {
    forall q, p, b :: g.levelQ(g.alloc(q, p, b)) == q && g.levelP(g.alloc(q, p, b)) == p
  }

  /** The bytes of an RGSW ciphertext: half 0, then half 1, with no header
      and no separator. */
  function Encode<G>(c: Codec<G>, v0: G, v1: G): seq<byte>
  {
    c.enc(v0) + c.enc(v1)
  }

  /** What `ReadFrom` makes of the bytes ahead of it: half 0, then half 1
      where half 0 ended; the first error ends the read. */
  function Decode<G>(c: Codec<G>, bs: seq<byte>): (d: Decoded<(G, G)>)
    ensures Bounded(c) ==> d.n <= |bs|
  {
    var d0 := c.dec(bs);
    if d0.value.Err? then Decoded(Err(d0.value.error), d0.n)
    else
      var d1 := c.dec(Drop(bs, d0.n));
      if d1.value.Err? then Decoded(Err(d1.value.error), d0.n + d1.n)
      else Decoded(Ok((d0.value.value, d1.value.value)), d0.n + d1.n)
  }

  /** The halves read back from their bytes, whatever follows them, after
      consuming exactly those bytes. */
  lemma RoundTrip<G(!new)>(c: Codec<G>, v0: G, v1: G, rest: seq<byte>)
    requires Lawful(c)
    ensures Decode(c, Encode(c, v0, v1) + rest) == Decoded(Ok((v0, v1)), |Encode(c, v0, v1)|)
  {
    var bs := Encode(c, v0, v1) + rest;
    assert bs == c.enc(v0) + (c.enc(v1) + rest);
    assert Drop(bs, |c.enc(v0)|) == c.enc(v1) + rest;
  }

  /** `rlwe.GadgetPlaintext`, reduced to its `Value`. */
  datatype GadgetPlaintext<V> = GadgetPlaintext(Value: V)

  /** `rgsw.Plaintext`: a gadget plaintext under another name. */
  datatype Plaintext<V> = Plaintext(Value: V)

  /** `NewPlaintext`: builds the gadget plaintext with `newGadgetPlaintext`
      (standing for `rlwe.NewGadgetPlaintext` with fixed parameters) and
      wraps its `Value`, passing any error through. */
  function NewPlaintext<X, V>(
    newGadgetPlaintext: (X, int, int, int) -> (GadgetPlaintext<V>, Option<Error>),
    value: X, levelQ: int, levelP: int, baseTwoDecomposition: int): (r: (Plaintext<V>, Option<Error>))
    ensures var (gct, err) := newGadgetPlaintext(value, levelQ, levelP, baseTwoDecomposition);
      GadgetPlaintext(r.0.Value) == gct && r.1 == err
  {
    var (gct, err) := newGadgetPlaintext(value, levelQ, levelP, baseTwoDecomposition);
    (Plaintext(gct.Value), err)
  }

  /** `rgsw.Ciphertext`: `value0` and `value1` are `Value[0]` and `Value[1]`. */
  class Ciphertext<G(!new)> {
    var value0: G
    var value1: G

    /** `NewCiphertext`: both halves allocated from the same arguments. */
    constructor (g: Gadget<G>, levelQ: int, levelP: int, baseTwoDecomposition: int)
      ensures value0 == value1 == g.alloc(levelQ, levelP, baseTwoDecomposition)
      ensures AllocKeepsLevels(g) ==> LevelQ(g) == levelQ && LevelP(g) == levelP
    {
      value0 := g.alloc(levelQ, levelP, baseTwoDecomposition);
      value1 := g.alloc(levelQ, levelP, baseTwoDecomposition);
    }

    /** `LevelQ`: the level of half 0, which is the Q level half 0 was
      allocated at. */
    function LevelQ(g: Gadget<G>): (l: int)
      reads this
      ensures AllocKeepsLevels(g) ==> forall q, p, b :: value0 == g.alloc(q, p, b) ==> l == q
    {
      g.levelQ(value0)
    }

    /** `LevelP`: the level of half 0, which is the P level half 0 was
      allocated at. */
    function LevelP(g: Gadget<G>): (l: int)
      reads this
      ensures AllocKeepsLevels(g) ==> forall q, p, b :: value0 == g.alloc(q, p, b) ==> l == p
    {
      g.levelP(value0)
    }

    /** `BinarySize`: the sum of the halves' sizes, which is the length of
      what `WriteTo` emits. */
    function BinarySize(g: Gadget<G>): (size: nat)
      reads this
      ensures Lawful(g.codec) ==> size == |Encode(g.codec, value0, value1)|
    {
      g.codec.size(value0) + g.codec.size(value1)
    }

    /** `WriteTo`: half 0, then half 1, each written with its own `WriteTo`;
      when half 0 fails, half 1 is not written. `n` counts the bytes the
      writer accepted. Each half writes its bytes in one `Write`. */
    method WriteTo(g: Gadget<G>, w: Writer) returns (n: nat, err: Option<Error>)
      modifies w
      ensures var e := Encode(g.codec, value0, value1);
        && n == Min(|e|, old(w.room))
        && w.data == old(w.data) + e[..n]
        && w.room == old(w.room) - n
        && w.flushes == old(w.flushes)
        && (err == if |e| <= old(w.room) then None else Some(ShortWrite))
      ensures old(w.room) < |g.codec.enc(value0)| ==>
        w.data == old(w.data) + g.codec.enc(value0)[..old(w.room)]
    {
      ghost var e0 := g.codec.enc(value0);
      ghost var e := Encode(g.codec, value0, value1);
      n, err := w.Write(g.codec.enc(value0));
      if err.Some? {
        assert e[..n] == e0[..n];
        return;
      }
      var inc;
      inc, err := w.Write(g.codec.enc(value1));
      assert e[..n + inc] == e0 + g.codec.enc(value1)[..inc];
      n := n + inc;
    }

    /** `ReadFrom`: half 0, then half 1, each read in place with its own
      `ReadFrom`; when half 0 fails, half 1 is not read. A half whose read
      fails keeps its value. */
    method ReadFrom(g: Gadget<G>, r: Reader) returns (n: nat, err: Option<Error>)
      requires r.Valid() && Bounded(g.codec)
      modifies this, r
      ensures r.Valid() && r.pos == old(r.pos) + n
      ensures var d := Decode(g.codec, r.buf[old(r.pos)..]);
        && n == d.n
        && (err.None? <==> d.value.Ok?)
        && (d.value.Ok? ==> (value0, value1) == d.value.value)
        && (d.value.Err? ==> err == Some(d.value.error))
      ensures var d0 := g.codec.dec(r.buf[old(r.pos)..]);
        && value0 == (if d0.value.Ok? then d0.value.value else old(value0))
        && (err.Some? ==> value1 == old(value1))
    {
      ghost var bs := r.buf[r.pos..];
      var res;
      n, res := r.Decode(g.codec);
      if res.Err? {
        return n, Some(res.error);
      }
      value0 := res.value;
      assert r.buf[r.pos..] == Drop(bs, n);
      var inc;
      inc, res := r.Decode(g.codec);
      n := n + inc;
      if res.Err? {
        return n, Some(res.error);
      }
      value1 := res.value;
      return n, None;
    }

    /** `MarshalBinary`: `WriteTo` into a buffer whose capacity is exactly
      `BinarySize`; the bytes fit, so the write succeeds. */
    method MarshalBinary(g: Gadget<G>) returns (p: seq<byte>, err: Option<Error>)
      requires Lawful(g.codec)
      ensures p == Encode(g.codec, value0, value1) && err == None
    {
      var buf := new Writer(BinarySize(g));
      var written;
      written, err := WriteTo(g, buf);
      p := buf.data;
    }

    /** `UnmarshalBinary`: `ReadFrom` over a buffer holding `p`. */
    method UnmarshalBinary(g: Gadget<G>, p: seq<byte>) returns (err: Option<Error>)
      requires Bounded(g.codec)
      modifies this
      ensures var d := Decode(g.codec, p);
        && (err.None? <==> d.value.Ok?)
        && (d.value.Ok? ==> (value0, value1) == d.value.value)
        && (d.value.Err? ==> err == Some(d.value.error))
      ensures var d0 := g.codec.dec(p);
        && value0 == (if d0.value.Ok? then d0.value.value else old(value0))
        && (err.Some? ==> value1 == old(value1))
    {
      var r := new Reader(p);
      assert r.buf[r.pos..] == p;
      var read;
      read, err := ReadFrom(g, r);
    }
  }

  /** The bytes `MarshalBinary` produces, given to `UnmarshalBinary` on any
    ciphertext, reproduce both halves. */
  method MarshalThenUnmarshal<G(!new)>(g: Gadget<G>, src: Ciphertext<G>, dst: Ciphertext<G>)
    returns (err: Option<Error>)
    requires Lawful(g.codec)
    modifies dst
    ensures err == None
    ensures dst.value0 == old(src.value0) && dst.value1 == old(src.value1)
  {
    var p, merr := src.MarshalBinary(g);
    RoundTrip(g.codec, src.value0, src.value1, []);
    assert p + [] == p;
    err := dst.UnmarshalBinary(g, p);
  }
}
