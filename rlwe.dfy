/** The RLWE secret key of rlwe/secretkey.go: a single QP polynomial, whose
    levels, size and bytes the key reports and moves as its own. The ring
    polynomial is abstract: the model knows only the level of a polynomial
    and the codec of a QP polynomial. */
module Rlwe {
  import opened Wire
  import opened Buffer

  /** `ringqp.Poly`: a polynomial over Q and, when present, one over P. */
  datatype QPPoly<R> = QPPoly(Q: R, P: Option<R>)

  /** What the model knows of the ring: `Level()` of a polynomial and the
      codec (`BinarySize`, `Read`/`WriteTo`, `Write`/`ReadFrom`) of a QP
      polynomial. */
  datatype RingQP<!R> = RingQP(level: R -> int, codec: Codec<QPPoly<R>>)

  /** Every polynomial has at least one modulus, so its level is not negative. */
  ghost predicate LevelsNatural<R(!new)>(ring: RingQP<R>)
  {
    forall x :: ring.level(x) >= 0
  }

  /** `rlwe.SecretKey`. */
  class SecretKey<R(==,!new)> {
    var Value: QPPoly<R>

    /** `NewSecretKey`: a key holding `zero`, the fresh polynomial
      `params.RingQP().NewPoly()`. */
    constructor (zero: QPPoly<R>)
      ensures Value == zero
    {
      Value := zero;
    }

    /** `Equal`: `cmp.Equal` on the polynomials, a structural comparison of
      the Q part and of the P part, absence included. */
    predicate Equal(other: SecretKey<R>): (r: bool)
      reads this, other
      ensures r <==> Value.Q == other.Value.Q && (Value.P.None? <==> other.Value.P.None?)
                     && (Value.P.Some? ==> Value.P.value == other.Value.P.value)
    {
      Value == other.Value
    }

    /** `LevelQ`: the level of the Q part. */
    function LevelQ(ring: RingQP<R>): (l: int)
      reads this
      ensures LevelsNatural(ring) ==> l >= 0
    {
      ring.level(Value.Q)
    }

    /** `LevelP`: the level of the P part, or -1 when there is none; since no
      level is negative, -1 says exactly that P is absent. */
    function LevelP(ring: RingQP<R>): (l: int)
      reads this
      ensures Value.P.Some? ==> l == ring.level(Value.P.value)
      ensures LevelsNatural(ring) ==> (l == -1 <==> Value.P.None?)
    {
      if Value.P.Some? then ring.level(Value.P.value) else -1
    }

    /** `CopyNew`: no key for no key; otherwise a new key, distinct from this
      one, holding an equal polynomial. */
    static method CopyNew(sk: SecretKey?<R>) returns (c: SecretKey?<R>)
      ensures sk == null <==> c == null
      ensures sk != null ==> fresh(c) && c.Equal(sk)
    {
      if sk == null {
        return null;
      }
      c := new SecretKey(sk.Value);
    }

    /** `BinarySize`: the size of the polynomial, which is the length of the
      key's bytes. */
    function BinarySize(ring: RingQP<R>): (size: nat)
      reads this
      ensures Lawful(ring.codec) ==> size == |ring.codec.enc(Value)|
    {
      ring.codec.size(Value)
    }

    /** `Read`: the key's bytes at the front of `data`, the rest untouched;
      a slice too short for them is refused and left as it was. */
    method Read(ring: RingQP<R>, data: array<byte>) returns (ptr: nat, err: Option<Error>)
      modifies data
      ensures var e := ring.codec.enc(Value);
        && (err.None? <==> |e| <= data.Length)
        && (err.None? ==> ptr == |e| && data[..ptr] == e && data[ptr..] == old(data[ptr..]))
        && (err.Some? ==> err == Some(ShortBuffer) && ptr == 0 && data[..] == old(data[..]))
    {
      var e := ring.codec.enc(Value);
      if data.Length < |e| {
        return 0, Some(ShortBuffer);
      }
      forall i | 0 <= i < |e| {
        data[i] := e[i];
      }
      ptr, err := |e|, None;
    }

    /** `MarshalBinary`: `Read` into a zeroed slice of exactly `BinarySize`
      bytes; no slice when `Read` fails. For a lawful codec it is the key's
      bytes and nothing else. */
    method MarshalBinary(ring: RingQP<R>) returns (data: Option<seq<byte>>, err: Option<Error>)
      ensures var e := ring.codec.enc(Value);
        && (err.None? <==> |e| <= BinarySize(ring))
        && (err.Some? ==> data == None && err == Some(ShortBuffer))
        && (err.None? ==>
              && data.Some? && |data.value| == BinarySize(ring)
              && data.value[..|e|] == e
              && (forall i :: |e| <= i < |data.value| ==> data.value[i] == 0))
      ensures Lawful(ring.codec) ==> data == Some(ring.codec.enc(Value)) && err == None
    {
      var buf := new byte[BinarySize(ring)](_ => 0);
      var ptr;
      ptr, err := Read(ring, buf);
      if err.Some? {
        return None, err;
      }
      data := Some(buf[..]);
      assert data.value[ptr..] == buf[ptr..];
      assert ptr == buf.Length ==> buf[..] == buf[..ptr];
    }

    /** `Write`: decodes the polynomial from the front of `data` and reports
      the bytes it consumed; a failed decoding leaves the key as it was. */
    method Write(ring: RingQP<R>, data: seq<byte>) returns (ptr: nat, err: Option<Error>)
      requires Bounded(ring.codec)
      modifies this
      ensures var d := ring.codec.dec(data);
        && ptr == d.n && ptr <= |data|
        && (err.None? <==> d.value.Ok?)
        && Value == (if d.value.Ok? then d.value.value else old(Value))
        && (d.value.Err? ==> err == Some(d.value.error))
    {
      var d := ring.codec.dec(data);
      ptr := d.n;
      if d.value.Err? {
        return ptr, Some(d.value.error);
      }
      Value, err := d.value.value, None;
    }

    /** `UnmarshalBinary`: `Write`, keeping only the error. */
    method UnmarshalBinary(ring: RingQP<R>, data: seq<byte>) returns (err: Option<Error>)
      requires Bounded(ring.codec)
      modifies this
      ensures var d := ring.codec.dec(data);
        && (err.None? <==> d.value.Ok?)
        && Value == (if d.value.Ok? then d.value.value else old(Value))
        && (d.value.Err? ==> err == Some(d.value.error))
    {
      var ptr;
      ptr, err := Write(ring, data);
    }

    /** `WriteTo`: the polynomial's bytes, written in one `Write`. */
    method WriteTo(ring: RingQP<R>, w: Writer) returns (n: nat, err: Option<Error>)
      modifies w
      ensures var e := ring.codec.enc(Value);
        && n == Min(|e|, old(w.room))
        && w.data == old(w.data) + e[..n]
        && w.room == old(w.room) - n
        && w.flushes == old(w.flushes)
        && (err == if |e| <= old(w.room) then None else Some(ShortWrite))
    {
      n, err := w.Write(ring.codec.enc(Value));
    }

    /** `ReadFrom`: the polynomial read from the bytes ahead of `r`; a failed
      read leaves the key as it was. */
    method ReadFrom(ring: RingQP<R>, r: Reader) returns (n: nat, err: Option<Error>)
      requires r.Valid() && Bounded(ring.codec)
      modifies this, r
      ensures r.Valid() && r.pos == old(r.pos) + n
      ensures var d := ring.codec.dec(r.buf[old(r.pos)..]);
        && n == d.n
        && (err.None? <==> d.value.Ok?)
        && Value == (if d.value.Ok? then d.value.value else old(Value))
        && (d.value.Err? ==> err == Some(d.value.error))
    {
      var res;
      n, res := r.Decode(ring.codec);
      if res.Err? {
        return n, Some(res.error);
      }
      Value, err := res.value, None;
    }

    /** Equal keys cannot be told apart by anything the key reports: its
      levels, its size and its bytes. */
    static lemma EqualKeysAlike(ring: RingQP<R>, a: SecretKey<R>, b: SecretKey<R>)
      requires a.Equal(b)
      ensures a.LevelQ(ring) == b.LevelQ(ring) && a.LevelP(ring) == b.LevelP(ring)
      ensures a.BinarySize(ring) == b.BinarySize(ring)
      ensures ring.codec.enc(a.Value) == ring.codec.enc(b.Value)
    {
    }

    /** Two keys built from different polynomials are not `Equal`; once one
      is given the other's polynomial, they are. */
    static method EqualAfterAssign(p: QPPoly<R>, q: QPPoly<R>) returns (before: bool, after: bool)
      ensures before <==> p == q
      ensures after
    {
      var a := new SecretKey(p);
      var b := new SecretKey(q);
      before := a.Equal(b);
      b.Value := a.Value;
      after := a.Equal(b);
    }

    /** The bytes `MarshalBinary` produces, given to `UnmarshalBinary` on any
      key, make it equal to the original. */
    static method MarshalThenUnmarshal(ring: RingQP<R>, src: SecretKey<R>, dst: SecretKey<R>)
      returns (err: Option<Error>)
      requires Lawful(ring.codec)
      modifies dst
      ensures err == None && dst.Value == old(src.Value)
    {
      var data, merr := src.MarshalBinary(ring);
      assert data.value + [] == data.value;
      err := dst.UnmarshalBinary(ring, data.value);
    }

    /** The slice `Read` filled, trailing bytes included, given to `Write` on
      any key, makes it equal to the original after consuming exactly the
      bytes `Read` wrote. */
    static method ReadThenWrite(ring: RingQP<R>, src: SecretKey<R>, dst: SecretKey<R>, data: array<byte>)
      returns (ptr: nat, err: Option<Error>)
      requires Lawful(ring.codec) && src.BinarySize(ring) <= data.Length
      modifies dst, data
      ensures err == None && dst.Value == old(src.Value)
      ensures ptr == old(src.BinarySize(ring))
    {
      var written, rerr := src.Read(ring, data);
      assert data[..] == data[..written] + data[written..];
      ptr, err := dst.Write(ring, data[..]);
    }
  }
}
