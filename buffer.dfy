/** The two stream interfaces every codec in the model writes to and reads
    from: `buffer.Writer` and `buffer.Reader`, over an in-memory byte buffer. */
module Buffer {
  import opened Wire

  /** A `buffer.Writer` over a buffer with a fixed remaining capacity `room`:
      `data` is everything it has accepted, and `flushes` counts the calls to
      `Flush`. A write larger than the room left accepts what fits and fails. */
  class Writer {
    var data: seq<byte>
    var room: nat
    var flushes: nat

    constructor (capacity: nat)
      ensures data == [] && room == capacity && flushes == 0
    {
      data, room, flushes := [], capacity, 0;
    }

    method Write(bs: seq<byte>) returns (k: nat, err: Option<Error>)
      modifies this
      ensures k == Min(|bs|, old(room))
      ensures data == old(data) + bs[..k] && room == old(room) - k
      ensures flushes == old(flushes)
      ensures err == if |bs| <= old(room) then None else Some(ShortWrite)
    {
      if |bs| <= room {
        k, err := |bs|, None;
      } else {
        k, err := room, Some(ShortWrite);
      }
      data, room := data + bs[..k], room - k;
    }

    /** Flushing an in-memory buffer moves no bytes and cannot fail. */
    method Flush() returns (err: Option<Error>)
      modifies this
      ensures data == old(data) && room == old(room)
      ensures flushes == old(flushes) + 1 && err == None
    {
      flushes, err := flushes + 1, None;
    }
  }

  /** A `buffer.Reader` over the bytes `buf`, positioned at `pos`. */
  class Reader {
    const buf: seq<byte>
    var pos: nat

    ghost predicate Valid()
      reads this
    {
      pos <= |buf|
    }

    constructor (bs: seq<byte>)
      ensures Valid() && buf == bs && pos == 0
    {
      buf, pos := bs, 0;
    }

    /** Lets the codec `c` read one value from the bytes ahead, and moves past
        the bytes it reports as consumed. */
    method Decode<T>(c: Codec<T>) returns (n: nat, res: Result<T>)
      requires Valid() && Bounded(c)
      modifies this
      ensures Valid() && pos == old(pos) + n
      ensures Decoded(res, n) == c.dec(buf[old(pos)..])
    {
      var d := c.dec(buf[pos..]);
      n, res := d.n, d.value;
      pos := pos + n;
    }
  }
}
