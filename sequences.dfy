/** Runs of elements written back to back, with no separator: the body of
    a `Vector[T]` and of a `Matrix[T]`. The element type is known only
    through its codec. */
module Sequences {
  import opened Wire

  /** The summed `BinarySize` of the elements of `v`. */
  function ElemsSize<T>(c: Codec<T>, v: seq<T>): nat
  {
    if v == [] then 0 else c.size(v[0]) + ElemsSize(c, v[1..])
  }

  /** The elements of `v` written one after the other, with no separator. */
  function ElemsEncode<T>(c: Codec<T>, v: seq<T>): seq<byte>
  {
    if v == [] then [] else c.enc(v[0]) + ElemsEncode(c, v[1..])
  }

  /** Where a sequence of reads stands: the values read so far, the bytes
      consumed, and the error that stopped it, if one did. */
  datatype Partial<+T> = Partial(items: seq<T>, n: nat, err: Option<Error>)

  /** Reads `k` elements in order, each where the previous one ended,
      stopping at the first that fails. */
  function DecodeElems<T>(c: Codec<T>, bs: seq<byte>, k: nat): (p: Partial<T>)
    ensures p.err.None? ==> |p.items| == k
    ensures p.err.Some? ==> |p.items| < k
    ensures Bounded(c) ==> p.n <= |bs|
  {
    if k == 0 then Partial([], 0, None)
    else
      var p := DecodeElems(c, bs, k - 1);
      if p.err.Some? then p
      else
        var d := c.dec(Drop(bs, p.n));
        if d.value.Err? then Partial(p.items, p.n + d.n, Some(d.value.error))
        else Partial(p.items + [d.value.value], p.n + d.n, None)
  }

  lemma {:induction false} ElemsEncodeLength<T(!new)>(c: Codec<T>, v: seq<T>)
    requires Lawful(c)
    ensures |ElemsEncode(c, v)| == ElemsSize(c, v)
  {
    if v != [] {
      ElemsEncodeLength(c, v[1..]);
    }
  }

  lemma {:induction false} ElemsAppend<T>(c: Codec<T>, a: seq<T>, b: seq<T>)
    ensures ElemsEncode(c, a + b) == ElemsEncode(c, a) + ElemsEncode(c, b)
    ensures ElemsSize(c, a + b) == ElemsSize(c, a) + ElemsSize(c, b)
  {
    if a == [] {
      assert a + b == b;
    } else {
      assert (a + b)[1..] == a[1..] + b;
      ElemsAppend(c, a[1..], b);
    }
  }

  /** Extending a prefix of `v` by the next element appends that element's
      bytes and size: the step of every loop over the elements. */
  lemma ElemsSnoc<T>(c: Codec<T>, v: seq<T>, i: nat)
    requires i < |v|
    ensures ElemsEncode(c, v[..i + 1]) == ElemsEncode(c, v[..i]) + c.enc(v[i])
    ensures ElemsSize(c, v[..i + 1]) == ElemsSize(c, v[..i]) + c.size(v[i])
  {
    assert v[..i + 1] == v[..i] + [v[i]];
    ElemsAppend(c, v[..i], [v[i]]);
    assert [v[i]][1..] == [];
  }

  /** The bytes of the first `i + 1` elements are those of the first `i`
      followed by element `i`, and they begin the bytes of all of `v`. */
  lemma ElemsPrefixStep<T>(c: Codec<T>, v: seq<T>, i: nat)
    requires i < |v|
    ensures var pre := ElemsEncode(c, v[..i]);
      var x := c.enc(v[i]);
      && |pre| + |x| <= |ElemsEncode(c, v)|
      && ElemsEncode(c, v)[..|pre| + |x|] == pre + x
      && ElemsEncode(c, v[..i + 1]) == pre + x
  {
    ElemsSnoc(c, v, i);
    assert v == v[..i + 1] + v[i + 1..];
    ElemsAppend(c, v[..i + 1], v[i + 1..]);
  }

  lemma PrefixOfAppend<T>(a: seq<T>, b: seq<T>)
    ensures (a + b)[..|a|] == a
  {
  }

  /** A run that has stopped stays stopped: reading further elements
      changes nothing. */
  lemma {:induction false} DecodeElemsStop<T>(c: Codec<T>, bs: seq<byte>, i: nat, k: nat)
    requires i <= k && DecodeElems(c, bs, i).err.Some?
    ensures DecodeElems(c, bs, k) == DecodeElems(c, bs, i)
  {
    if i < k {
      DecodeElemsStop(c, bs, i, k - 1);
    }
  }

  /** Reading back the elements of `v`, whatever follows them, gives `v`
      after consuming exactly their bytes. */
  lemma {:induction false} ElemsRoundTrip<T(!new)>(c: Codec<T>, v: seq<T>, rest: seq<byte>)
    requires Lawful(c)
    ensures DecodeElems(c, ElemsEncode(c, v) + rest, |v|) == Partial(v, |ElemsEncode(c, v)|, None)
    decreases |v|
  {
    if v != [] {
      var i := |v| - 1;
      var x := v[i];
      var pre := ElemsEncode(c, v[..i]);
      ElemsSnoc(c, v, i);
      assert v[..i + 1] == v;
      var bs := ElemsEncode(c, v) + rest;
      assert bs == pre + (c.enc(x) + rest);
      ElemsRoundTrip(c, v[..i], c.enc(x) + rest);
      assert Drop(bs, |pre|) == c.enc(x) + rest;
      assert v[..i] + [x] == v;
    }
  }
}
