/**
 * The protocol's byte buffer: the bytes written so far and a read cursor.
 * Writing appends at the end; reading consumes from the cursor.
 */
module ByteBuffer {
  import opened Bytes
  import opened Wrappers
  import CompactInt

  class Buffer {
    var data: seq<byte>
    var pos: nat

    ghost predicate Valid()
      reads this
    {
      pos <= |data|
    }

    /** Buffer(data): a buffer holding data with the cursor at its start; Buffer() is Buffer([]). */
    constructor (init: seq<byte>)
      ensures Valid()
      ensures data == init && pos == 0
    {
      data := init;
      pos := 0;
    }

    /**
     * Reads one compact integer at the cursor and moves the cursor past it.
     * When the bytes end before the value does, nothing is consumed and None is returned.
     */
    method ReadCompactInt() returns (r: Option<int>)
      requires Valid()
      modifies this
      ensures Valid() && data == old(data)
      ensures r == (match CompactInt.Decode(old(data[pos..]))
                    case None => None
                    case Some((v, _)) => Some(v))
      ensures r.Some? ==> pos == old(pos) + CompactInt.Decode(old(data[pos..])).value.1
      ensures r.None? ==> pos == old(pos)
    {
      var d := CompactInt.Decode(data[pos..]);
      match d
      case None =>
        r := None;
      case Some((v, n)) =>
        CompactInt.DecodedWithin(data[pos..]);
        r := Some(v);
        pos := pos + n;
    }

    /** Appends the compact encoding of v; the cursor does not move. */
    method WriteCompactInt(v: int)
      requires Valid()
      requires CompactInt.InRange(v)
      modifies this
      ensures Valid()
      ensures data == old(data) + CompactInt.Encode(v) && pos == old(pos)
    {
      data := data + CompactInt.Encode(v);
    }

    /** Everything written so far, whatever the cursor position. */
    method GetBuffer() returns (r: seq<byte>)
      ensures r == data
    {
      r := data;
    }
  }
}
