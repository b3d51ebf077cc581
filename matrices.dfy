/** `Matrix[T]` (utils/structs/matrix.go): a ragged two-dimensional slice
    whose rows are `Vector[T]`. Its wire format is
    `[rowCount: u64][row_0]...[row_{rowCount-1}]`, each row in the vector
    layout of module Vectors. */
module Matrices {
  import opened Wire
  import opened Buffer
  import opened Sequences
  import opened Vectors

  /** `Matrix[T].BinarySize`: the row-count header plus each row's
      `Vector[T].BinarySize`. */
  function Size<T>(c: Codec<T>, m: seq<Vec<T>>): nat
  {
    8 + ElemsSize(VecCodec(c), m)
  }

  /** The bytes `Matrix[T].WriteTo` emits: the row count, then every row. */
  function Encode<T>(c: Codec<T>, m: Vec<Vec<T>>): seq<byte>
  {
    EncodeUint64(|m|) + ElemsEncode(VecCodec(c), m)
  }

  /** What `Matrix[T].ReadFrom` makes of the bytes ahead of it: the row count,
      then that many rows, each error wrapped with where it arose. A row count
      that is negative as an `int` is refused (see `NegativeCountRejected`). */
  function Decode<T>(c: Codec<T>, bs: seq<byte>): (d: Decoded<Vec<Vec<T>>>)
    ensures Bounded(c) ==> d.n <= |bs|
  {
    var h := DecodeUint64(bs);
    match h.value
    case Err(e) => Decoded(Err(Wrapped(ReadAsUint64, e)), h.n)
    case Ok(u) =>
      var size := ToInt64(u);
      if size < 0 then Decoded(Err(Wrapped(ReadAsUint64, NegativeLength)), h.n)
      else
        VecCodecBounded(c);
        var p := DecodeElems(VecCodec(c), bs[h.n..], size);
        var rows: Result<Vec<Vec<T>>> :=
          if p.err.None? then Ok(p.items) else Err(Wrapped(VectorReadFrom, p.err.value));
        Decoded(rows, h.n + p.n)
  }

  /** What `Matrix[T].Equal` computes: each row of `m` equals the row of
      `other` at the same index. Rows of `other` past the end of `m` are never
      looked at. */
  ghost predicate RowsAgree<T>(m: seq<Vec<T>>, other: seq<Vec<T>>)
    requires |other| >= |m|
  {
    forall i :: 0 <= i < |m| ==> m[i] == other[i]
  }

  /** How lines 133-137 of `ReadFrom` resize the receiver for a decoded
      row count `size` when its capacity is `capacity`. */
  datatype Resize = Reuse | Reallocate | AllocPanic | SlicePanic

  /** The resize step as written: a fresh slice when the capacity is short,
      and otherwise `(*m)[:size]`, which panics for a negative `size`.
      `limit` is the largest length `make([][]T, size)` can allocate; past
      it, `make` panics. */
  function ResizeAsWritten(capacity: nat, size: int, limit: nat): (r: Resize)
    ensures r == SlicePanic <==> size < 0
    ensures r == AllocPanic <==> capacity < size && limit < size
    ensures r == Reallocate <==> capacity < size <= limit
    ensures r == Reuse <==> 0 <= size <= capacity
  {
    if capacity < size then (if limit < size then AllocPanic else Reallocate)
    else if size < 0 then SlicePanic
    else Reuse
  }

  const TwoTo62: nat := 0x4000_0000_0000_0000

  /** The eight bytes of the largest `uint64`, which reads as the `int` -1. */
  const AllOnes: seq<byte> := [255, 255, 255, 255, 255, 255, 255, 255]

  /** The backing array after the resize step of `ReadFrom` for a
      non-negative row count `size`: kept when its capacity suffices, and
      otherwise replaced by `size` empty rows. */
  function Resized<T>(backing: seq<Vec<T>>, size: nat): (b: seq<Vec<T>>)
    ensures size <= |b| && |b| == if size <= |backing| then |backing| else size
    ensures size <= |backing| ==> b == backing
    ensures |backing| < size ==> forall j :: 0 <= j < size ==> b[j] == []
  {
    if |backing| < size then seq(size, _ => []) else backing
  }

  /** A receiver for `Matrix[T]`: `backing` holds the rows of the slice's
      backing array (its length is the slice's capacity) and `len` is the
      slice's length. */
  class Matrix<T(==,!new)> {
    var backing: seq<Vec<T>>
    var len: nat

    ghost predicate Valid()
      reads this
    {
      len <= |backing| && len < TwoTo63
    }

    /** The rows the slice holds. */
    function Rows(): Vec<Vec<T>>
      reads this
      requires Valid()
    {
      backing[..len]
    }

    /** `Matrix[T](backing[:n])`. */
    constructor (backing: seq<Vec<T>>, n: nat)
      requires n <= |backing| && n < TwoTo63
      ensures Valid() && this.backing == backing && len == n
    {
      this.backing, len := backing, n;
    }

    /** `CopyNew`: a new matrix, with a backing array of its own, holding the
      same rows. */
    method CopyNew() returns (mcpy: Matrix<T>)
      requires Valid()
      ensures fresh(mcpy) && mcpy.Valid()
      ensures mcpy.Rows() == Rows() && |mcpy.backing| == len
    {
      var rows: seq<Vec<T>> := [];
      for i := 0 to len
        invariant rows == backing[..i]
      {
        rows := rows + [backing[i]];
      }
      mcpy := new Matrix(rows, len);
    }

    /** `BinarySize`: the header plus the size of each row, which is the
      length of what `WriteTo` emits. */
    method BinarySize(c: Codec<T>) returns (size: nat)
      requires Valid()
      ensures size == Size(c, Rows())
      ensures Lawful(c) ==> size == |Encode(c, Rows())|
    {
      ghost var rows := Rows();
      size := 8;
      for i := 0 to len
        invariant size == 8 + ElemsSize(VecCodec(c), rows[..i])
      {
        ElemsSnoc(VecCodec(c), rows, i);
        size := size + VecSize(c, backing[i]);
      }
      assert rows[..len] == rows;
      if Lawful(c) {
        EncodeLength(c, rows);
      }
    }

    /** `WriteTo`: the row count, then each row in order, stopping at the
      first write that fails; the writer is flushed only when every write
      succeeded. `n` counts the bytes the writer accepted. */
    method WriteTo(c: Codec<T>, w: Writer) returns (n: nat, err: Option<Error>)
      requires Valid()
      modifies w
      ensures var e := Encode(c, Rows());
        && n == Min(|e|, old(w.room))
        && w.data == old(w.data) + e[..n]
        && w.room == old(w.room) - n
      ensures err.None? <==> |Encode(c, Rows())| <= old(w.room)
      ensures err.Some? ==>
        err == Some(Wrapped(if old(w.room) < 8 then WriteAsUint64 else VectorWriteTo, ShortWrite))
      ensures w.flushes == old(w.flushes) + (if err.None? then 1 else 0)
    {
      n, err := WriteFramed(VecCodec(c), w, EncodeUint64(len), Rows());
    }

    /** The body of `WriteTo` for any header `hdr` and row layout `rc`. */
    static method WriteFramed<U>(rc: Codec<U>, w: Writer, hdr: seq<byte>, rows: seq<U>)
      returns (n: nat, err: Option<Error>)
      requires |hdr| == 8
      modifies w
      ensures var e := hdr + ElemsEncode(rc, rows);
        && n == Min(|e|, old(w.room))
        && w.data == old(w.data) + e[..n]
        && w.room == old(w.room) - n
        && (err.None? <==> |e| <= old(w.room))
        && (err.Some? ==>
              err == Some(Wrapped(if old(w.room) < 8 then WriteAsUint64 else VectorWriteTo, ShortWrite)))
        && w.flushes == old(w.flushes) + (if err.None? then 1 else 0)
    {
      ghost var body := ElemsEncode(rc, rows);
      ghost var e := hdr + body;
      var inc, werr := w.Write(hdr);
      if werr.Some? {
        assert e[..inc] == hdr[..inc];
        n, err := inc, Some(Wrapped(WriteAsUint64, werr.value));
      } else {
        assert e[..8] == hdr && e[..8 + |body|] == e;
        var k, rerr := WriteRows(rc, w, rows);
        GrowPrefix(old(w.data), e, 8, body, k);
        n := 8 + k;
        if rerr.Some? {
          err := Some(Wrapped(VectorWriteTo, rerr.value));
        } else {
          err := w.Flush();
        }
      }
    }

    /** The loop of `WriteTo` over the rows, for any row layout `rc`: each
      row's bytes in turn, stopping at the first write that fails. */
    static method WriteRows<U>(rc: Codec<U>, w: Writer, rows: seq<U>) returns (n: nat, err: Option<Error>)
      modifies w
      ensures var e := ElemsEncode(rc, rows);
        && n == Min(|e|, old(w.room))
        && w.data == old(w.data) + e[..n]
        && w.room == old(w.room) - n
        && w.flushes == old(w.flushes)
        && (err == if |e| <= old(w.room) then None else Some(ShortWrite))
    {
      ghost var e := ElemsEncode(rc, rows);
      ghost var room0, data0 := w.room, w.data;
      n, err := 0, None;
      var i := 0;
      while i < |rows| && err.None?
        invariant i <= |rows| && n <= |e| && n <= room0 && w.room == room0 - n
        invariant w.data == data0 + e[..n] && w.flushes == old(w.flushes)
        invariant err.None? ==> n == |ElemsEncode(rc, rows[..i])| && e[..n] == ElemsEncode(rc, rows[..i])
        invariant err.Some? ==> err == Some(ShortWrite) && n == room0 && room0 < |e|
      {
        n, err := WriteRow(rc, w, rows, i, n, room0, data0);
        i := i + 1;
      }
      if err.None? {
        assert rows[..i] == rows;
      }
    }

    /** One turn of the loop of `WriteTo`: the bytes of row `i`, after those
      of the rows before it. */
    static method WriteRow<U>(rc: Codec<U>, w: Writer, rows: seq<U>, i: nat, n: nat,
                              ghost room0: nat, ghost data0: seq<byte>)
      returns (n': nat, err: Option<Error>)
      requires i < |rows| && n == |ElemsEncode(rc, rows[..i])| && n <= |ElemsEncode(rc, rows)|
      requires ElemsEncode(rc, rows)[..n] == ElemsEncode(rc, rows[..i])
      requires n <= room0 && w.room == room0 - n && w.data == data0 + ElemsEncode(rc, rows)[..n]
      modifies w
      ensures var e := ElemsEncode(rc, rows);
        && n' <= |e| && n' <= room0 && w.room == room0 - n'
        && w.data == data0 + e[..n'] && w.flushes == old(w.flushes)
        && (err.None? ==> n' == |ElemsEncode(rc, rows[..i + 1])| && e[..n'] == ElemsEncode(rc, rows[..i + 1]))
        && (err.Some? ==> err == Some(ShortWrite) && n' == room0 && room0 < |e|)
    {
      ElemsPrefixStep(rc, rows, i);
      var inc;
      inc, err := w.Write(rc.enc(rows[i]));
      GrowPrefix(data0, ElemsEncode(rc, rows), n, rc.enc(rows[i]), inc);
      n' := n + inc;
    }

    /** `ReadFrom`: reads the row count, resizes the receiver in place
      (reusing the backing array when its capacity suffices), then reads each
      row into it in turn, stopping at the first row that fails. A failed
      header leaves the receiver as it was; otherwise the receiver holds the
      rows read, followed by whatever the resized backing array held. */
    method ReadFrom(c: Codec<T>, r: Reader) returns (n: nat, err: Option<Error>)
      requires Valid() && r.Valid() && Bounded(c)
      modifies this, r
      ensures Valid() && r.Valid() && r.pos == old(r.pos) + n
      ensures var d := Decode(c, r.buf[old(r.pos)..]);
        && n == d.n
        && (err.None? <==> d.value.Ok?)
        && (d.value.Ok? ==> Rows() == d.value.value)
        && (d.value.Err? ==> err == Some(d.value.error))
      ensures var h := DecodeUint64(r.buf[old(r.pos)..]);
        if h.value.Err? || ToInt64(h.value.value) < 0 then
          backing == old(backing) && len == old(len)
        else
          var size := ToInt64(h.value.value);
          var p := DecodeElems(VecCodec(c), r.buf[old(r.pos) + 8..], size);
          && len == size
          && backing == p.items + Resized(old(backing), size)[|p.items|..]
    {
      ghost var rest0 := r.buf[r.pos..];
      ghost var p0 := r.pos;
      VecCodecBounded(c);
      Uint64CodecBounded();
      var inc, u := r.Decode(Uint64Codec());
      n := inc;
      if u.Err? {
        return n, Some(Wrapped(ReadAsUint64, u.error));
      }
      var size := ToInt64(u.value);
      if size < 0 {
        return n, Some(Wrapped(ReadAsUint64, NegativeLength));
      }
      DropDrop(r.buf, p0, 8);
      DecodeRowsOk(c, rest0);
      var k;
      k, err := ResizeAndReadRows(c, r, size);
      n := n + k;
    }

    /** The rest of `ReadFrom` once the header has given a non-negative row
      count `size`: the resize step, then the rows, the first error wrapped
      with where it arose. */
    method ResizeAndReadRows(c: Codec<T>, r: Reader, size: nat) returns (n: nat, err: Option<Error>)
      requires Valid() && r.Valid() && Bounded(c) && size < TwoTo63
      modifies this, r
      ensures Valid() && r.Valid() && r.pos == old(r.pos) + n
      ensures var p := DecodeElems(VecCodec(c), r.buf[old(r.pos)..], size);
        && n == p.n
        && err == (if p.err.None? then None else Some(Wrapped(VectorReadFrom, p.err.value)))
        && len == size
        && backing == p.items + Resized(old(backing), size)[|p.items|..]
        && (p.err.None? ==> Rows() == p.items)
    {
      VecCodecBounded(c);
      if |backing| < size {
        backing := seq(size, _ => []);
      }
      len := size;
      var rows, rerr;
      rows, n, rerr := ReadRows(VecCodec(c), r, backing, size);
      backing := rows;
      if rerr.Some? {
        err := Some(Wrapped(VectorReadFrom, rerr.value));
      } else {
        PrefixOfAppend(rows[..size], rows[size..]);
        assert rows == rows[..size] + rows[size..];
        err := None;
      }
    }

    /** The loop of `ReadFrom` over the rows, for any row layout `rc`: reads
      rows `0..count` in turn into the slots of `b0`, stopping at the first
      that fails; the slots not reached keep what they held. */
    static method ReadRows<U>(rc: Codec<U>, r: Reader, b0: seq<U>, count: nat)
      returns (rows: seq<U>, n: nat, err: Option<Error>)
      requires r.Valid() && Bounded(rc) && count <= |b0|
      modifies r
      ensures r.Valid() && r.pos == old(r.pos) + n
      ensures var p := DecodeElems(rc, r.buf[old(r.pos)..], count);
        && n == p.n && err == p.err
        && rows == p.items + b0[|p.items|..]
    {
      ghost var rest0 := r.buf[r.pos..];
      ghost var p0 := r.pos;
      ghost var items: seq<U> := [];
      rows, n, err := b0, 0, None;
      var i := 0;
      while i < count && err.None?
        invariant i <= count && n <= |rest0| && r.Valid() && r.pos == p0 + n
        invariant DecodeElems(rc, rest0, i) == Partial(items, n, err)
        invariant rows == items + b0[|items|..]
        invariant err.None? ==> |items| == i
      {
        rows, n, err, items := ReadRow(rc, r, rows, rest0, p0, i, items, n, b0);
        i := i + 1;
      }
      if err.Some? {
        DecodeElemsStop(rc, rest0, i, count);
      }
    }

    /** One turn of the loop of `ReadFrom`: row `i` read where row `i - 1`
      ended, into slot `i` when it decodes. */
    static method ReadRow<U>(rc: Codec<U>, r: Reader, rows: seq<U>, ghost rest0: seq<byte>, ghost p0: nat,
                             i: nat, ghost items: seq<U>, n: nat, ghost b0: seq<U>)
      returns (rows': seq<U>, n': nat, err: Option<Error>, ghost items': seq<U>)
      requires r.Valid() && Bounded(rc) && r.pos == p0 + n && n <= |rest0| && rest0 == r.buf[p0..]
      requires i < |b0| && |items| == i && rows == items + b0[i..]
      requires DecodeElems(rc, rest0, i) == Partial(items, n, None)
      modifies r
      ensures r.Valid() && r.pos == p0 + n' && n' <= |rest0|
      ensures DecodeElems(rc, rest0, i + 1) == Partial(items', n', err)
      ensures rows' == items' + b0[|items'|..]
      ensures err.None? ==> |items'| == i + 1
    {
      DropDrop(r.buf, p0, n);
      var inc, res := r.Decode(rc);
      ReadStep(rc, rest0, i, items, n, rows, b0, Decoded(res, inc));
      n' := n + inc;
      rows' := if res.Ok? then rows[i := res.value] else rows;
      err := if res.Ok? then None else Some(res.error);
      items' := if res.Ok? then items + [res.value] else items;
    }

    /** `MarshalBinary`: `WriteTo` into a buffer whose capacity is exactly
      `BinarySize`; the bytes fit, so the write succeeds. */
    method MarshalBinary(c: Codec<T>) returns (p: seq<byte>, err: Option<Error>)
      requires Valid() && Lawful(c)
      ensures p == Encode(c, Rows()) && err == None
    {
      var size := BinarySize(c);
      var buf := new Writer(size);
      var written, werr := WriteTo(c, buf);
      p, err := buf.data, werr;
    }

    /** `UnmarshalBinary`: `ReadFrom` over a buffer holding `p`. */
    method UnmarshalBinary(c: Codec<T>, p: seq<byte>) returns (err: Option<Error>)
      requires Valid() && Bounded(c)
      modifies this
      ensures Valid()
      ensures var d := Decode(c, p);
        && (err.None? <==> d.value.Ok?)
        && (d.value.Ok? ==> Rows() == d.value.value)
        && (d.value.Err? ==> err == Some(d.value.error))
      ensures var h := DecodeUint64(p);
        if h.value.Err? || ToInt64(h.value.value) < 0 then
          backing == old(backing) && len == old(len)
        else
          var size := ToInt64(h.value.value);
          var q := DecodeElems(VecCodec(c), p[8..], size);
          && len == size
          && backing == q.items + Resized(old(backing), size)[|q.items|..]
    {
      var r := new Reader(p);
      assert r.buf[r.pos..] == p;
      var read, rerr := ReadFrom(c, r);
      err := rerr;
    }

    /** `Equal` as written: the short-circuiting conjunction, over the rows
      of the receiver, of the row equalities. The row counts are not
      compared. Row `i` of `other` is looked at only while every earlier row
      has matched, so a shorter `other` is indexed out of range exactly when
      all of its rows match; that case panics and is excluded. */
    method Equal(other: Matrix<T>) returns (isEqual: bool)
      requires Valid() && other.Valid()
      requires other.len >= len || exists j :: 0 <= j < other.len && backing[j] != other.backing[j]
      ensures isEqual <==> len <= other.len && RowsAgree(Rows(), other.Rows())
    {
      isEqual := true;
      for i := 0 to len
        invariant isEqual <==> i <= other.len && forall j :: 0 <= j < i ==> backing[j] == other.backing[j]
      {
        isEqual := isEqual && backing[i] == other.backing[i];
      }
    }

    /** `Equal` with the row counts compared first: structural equality. */
    method EqualStrict(other: Matrix<T>) returns (isEqual: bool)
      requires Valid() && other.Valid()
      ensures isEqual <==> Rows() == other.Rows()
    {
      if len != other.len {
        return false;
      }
      isEqual := Equal(other);
      RowsAgreeSameLength(Rows(), other.Rows());
    }
  }

  /** The bytes `MarshalBinary` produces, given to `UnmarshalBinary` on any
    matrix, make it hold the same rows. */
  method MarshalThenUnmarshal<T(==,!new)>(c: Codec<T>, src: Matrix<T>, dst: Matrix<T>)
    returns (err: Option<Error>)
    requires src.Valid() && dst.Valid() && Lawful(c)
    modifies dst
    ensures err == None && dst.Valid() && dst.Rows() == old(src.Rows())
  {
    var p, merr := src.MarshalBinary(c);
    RoundTrip(c, src.Rows(), []);
    assert p + [] == p;
    err := dst.UnmarshalBinary(c, p);
  }

  /** `Equal` on a shorter `other` whose first row differs stops there and
    returns false without indexing past its end. */
  method EqualStopsAtFirstMismatch() returns (isEqual: bool)
    ensures !isEqual
  {
    var m := new Matrix<int>([[1], [2]], 2);
    var other := new Matrix<int>([[3]], 1);
    assert m.backing[0] != other.backing[0];
    isEqual := m.Equal(other);
  }

  /** One step of the loop of `ReadFrom`: the row `d` decoded where the
      first `i` ended either joins them, replacing slot `i`, or stops the run. */
  lemma ReadStep<U>(rc: Codec<U>, bs: seq<byte>, i: nat, items: seq<U>, n: nat, rows: seq<U>, b0: seq<U>, d: Decoded<U>)
    requires Bounded(rc) && n <= |bs| && d == rc.dec(bs[n..])
    requires i < |b0| && |items| == i && rows == items + b0[i..]
    requires DecodeElems(rc, bs, i) == Partial(items, n, None)
    ensures var items' := if d.value.Ok? then items + [d.value.value] else items;
      var rows' := if d.value.Ok? then rows[i := d.value.value] else rows;
      var err := if d.value.Ok? then None else Some(d.value.error);
      && n + d.n <= |bs|
      && DecodeElems(rc, bs, i + 1) == Partial(items', n + d.n, err)
      && rows' == items' + b0[|items'|..]
      && (err.None? ==> |items'| == i + 1)
  {
  }

  /** `Decode` once the header has given a non-negative row count. */
  lemma DecodeRowsOk<T>(c: Codec<T>, bs: seq<byte>)
    requires DecodeUint64(bs).value.Ok? && DecodeUint64(bs).value.value < TwoTo63
    ensures var p := DecodeElems(VecCodec(c), bs[8..], DecodeUint64(bs).value.value);
      && Decode(c, bs).n == 8 + p.n
      && (p.err.None? ==> Decode(c, bs).value == Ok(p.items))
      && (p.err.Some? ==> Decode(c, bs).value == Err(Wrapped(VectorReadFrom, p.err.value)))
  {
  }

  /** `WriteTo` writes exactly `BinarySize` bytes: the header and each row's
      `Vector[T].BinarySize`. */
  lemma EncodeLength<T(!new)>(c: Codec<T>, m: Vec<Vec<T>>)
    requires Lawful(c)
    ensures |Encode(c, m)| == Size(c, m) == 8 + ElemsSize(VecCodec(c), m)
  {
    VecCodecLawful(c);
    ElemsEncodeLength(VecCodec(c), m);
  }

  /** `ReadFrom` on the bytes `WriteTo` emitted, whatever follows them, gives
      back the same rows and consumes exactly `BinarySize` bytes. */
  lemma RoundTrip<T(!new)>(c: Codec<T>, m: Vec<Vec<T>>, rest: seq<byte>)
    requires Lawful(c)
    ensures Decode(c, Encode(c, m) + rest) == Decoded(Ok(m), Size(c, m))
  {
    var body := ElemsEncode(VecCodec(c), m) + rest;
    VecCodecLawful(c);
    ElemsRoundTrip(VecCodec(c), m, rest);
    EncodeLength(c, m);
    AppendAssoc(EncodeUint64(|m|), ElemsEncode(VecCodec(c), m), rest);
    ReadFramed(c, EncodeUint64(|m|), body, |m|, m, |ElemsEncode(VecCodec(c), m)|);
  }

  /** A header that reads as a non-negative row count, followed by rows that
      decode, decodes to those rows. */
  lemma ReadFramed<T>(c: Codec<T>, hdr: seq<byte>, body: seq<byte>, count: nat, rows: seq<Vec<T>>, k: nat)
    requires count < TwoTo63 && hdr == EncodeUint64(count)
    requires DecodeElems(VecCodec(c), body, count) == Partial(rows, k, None)
    ensures Decode(c, hdr + body) == Decoded(Ok(rows), 8 + k)
  {
    DecodeUint64Encoded(count, body);
    assert (hdr + body)[8..] == body;
    DecodeRowsOk(c, hdr + body);
  }

  /** An empty matrix is its eight-byte header of zeros, and reads back as an
      empty matrix. */
  lemma EmptyMatrix<T(!new)>(c: Codec<T>, rest: seq<byte>)
    ensures Size(c, []) == 8
    ensures Encode(c, []) == [0, 0, 0, 0, 0, 0, 0, 0]
    ensures Decode(c, Encode(c, []) + rest).value.Ok?
    ensures Decode(c, Encode(c, []) + rest).value.value == []
    ensures Decode(c, Encode(c, []) + rest).n == 8
  {
    assert EncodeUint64(0) == [0, 0, 0, 0, 0, 0, 0, 0];
    assert ElemsEncode(VecCodec(c), []) == [];
    ReadFramed(c, EncodeUint64(0), rest, 0, [], 0);
  }

  /** With equal row counts, the row-wise comparison is equality. */
  lemma RowsAgreeSameLength<T>(m: seq<Vec<T>>, other: seq<Vec<T>>)
    requires |m| == |other|
    ensures RowsAgree(m, other) <==> m == other
  {
  }

  /** `Equal` as written holds between a matrix and any longer matrix that
      starts with the same rows: the empty matrix "equals" one with a row. */
  lemma EqualIgnoresExtraRows<T>(row: Vec<T>)
    ensures RowsAgree([], [row]) && [] != [row]
  {
  }

  /** As written, a row count whose top bit is set reads as a negative `int`,
      passes the capacity guard, and makes `(*m)[:size]` panic. */
  lemma NegativeCountPanicsAsWritten(capacity: nat, limit: nat, rest: seq<byte>)
    ensures var h := DecodeUint64(AllOnes + rest);
      && h.value.Ok?
      && ToInt64(h.value.value) == -1
      && ResizeAsWritten(capacity, ToInt64(h.value.value), limit) == SlicePanic
  {
    var bs := AllOnes + rest;
    assert bs[..8] == AllOnes;
    assert FromLittleEndian(AllOnes) == TwoTo64 - 1;
  }

  /** As written, a non-negative row count too large to allocate, such as
      2^62 on a receiver of smaller capacity, makes `make([][]T, size)`
      panic. */
  lemma HugeCountPanicsAsWritten(capacity: nat, limit: nat, rest: seq<byte>)
    requires capacity < TwoTo62 && limit < TwoTo62
    ensures var h := DecodeUint64(EncodeUint64(TwoTo62) + rest);
      && h.value.Ok?
      && ToInt64(h.value.value) == TwoTo62
      && ResizeAsWritten(capacity, ToInt64(h.value.value), limit) == AllocPanic
  {
    DecodeUint64Encoded(TwoTo62, rest);
  }

  /** The model reports such a row count, with no bytes after it, as a
      failed read of the first row, after consuming the header. */
  lemma HugeCountRejected<T>(c: Codec<T>)
    ensures Decode(c, EncodeUint64(TwoTo62)) == Decoded(Err(Wrapped(VectorReadFrom, ShortRead)), 8)
  {
    var bs := EncodeUint64(TwoTo62);
    DecodeUint64Encoded(TwoTo62, []);
    assert bs + [] == bs;
    assert bs[8..] == [];
    var p1 := DecodeElems(VecCodec(c), [], 1);
    assert VecCodec(c).dec([]) == Decoded(Err(ShortRead), 0);
    assert p1 == Partial([], 0, Some(ShortRead));
    DecodeElemsStop(VecCodec(c), [], 1, TwoTo62);
  }

  /** The model reports such a row count as an error after reading the
      header, leaving the receiver untouched. */
  lemma NegativeCountRejected<T>(c: Codec<T>, rest: seq<byte>)
    ensures Decode(c, AllOnes + rest) == Decoded(Err(Wrapped(ReadAsUint64, NegativeLength)), 8)
  {
    var bs := AllOnes + rest;
    assert bs[..8] == AllOnes;
    assert FromLittleEndian(AllOnes) == TwoTo64 - 1;
  }
}
