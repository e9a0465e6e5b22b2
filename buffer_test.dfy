/**
 * The two vector tables that pin down the compact integer codec, and the
 * two test procedures that check them against fresh buffers.
 */
module BufferTest {
  import opened Bytes
  import opened Wrappers
  import CompactInt
  import ByteBuffer

  /** A read case: decoding data from a fresh buffer yields expected. */
  datatype ReadCase = ReadCase(data: seq<byte>, expected: int)

  /** A write case: writing value into an empty buffer leaves exactly expected in it. */
  datatype WriteCase = WriteCase(value: int, expected: seq<byte>)

  const ReadCases: seq<ReadCase> := [
    ReadCase([0xff, 0xff, 0xff, 0xff, 0x1f], -(0x1_0000_0000 - 1)),
    ReadCase([0xff, 0xff, 0xff, 0x7f], -(0x800_0000 - 1)),
    ReadCase([0xff, 0xff, 0x7f], -(0x10_0000 - 1)),
    ReadCase([0xff, 0x7f], -(0x2000 - 1)),
    ReadCase([0xbf], -(0x40 - 1)),
    ReadCase([0x00], 0),
    ReadCase([0x3f], 0x40 - 1),
    ReadCase([0x7f, 0x7f], 0x2000 - 1),
    ReadCase([0x7f, 0xff, 0x7f], 0x10_0000 - 1),
    ReadCase([0x7f, 0xff, 0xff, 0x7f], 0x800_0000 - 1),
    ReadCase([0x7f, 0xff, 0xff, 0xff, 0x1f], 0x1_0000_0000 - 1)
  ]

  const WriteCases: seq<WriteCase> := [
    WriteCase(-(0x1_0000_0000 - 1), [0xff, 0xff, 0xff, 0xff, 0x1f]),
    WriteCase(-(0x800_0000 - 1), [0xff, 0xff, 0xff, 0x7f]),
    WriteCase(-(0x10_0000 - 1), [0xff, 0xff, 0x7f]),
    WriteCase(-(0x2000 - 1), [0xff, 0x7f]),
    WriteCase(-(0x40 - 1), [0xbf]),
    WriteCase(0, [0x00]),
    WriteCase(0x40 - 1, [0x3f]),
    WriteCase(0x2000 - 1, [0x7f, 0x7f]),
    WriteCase(0x10_0000 - 1, [0x7f, 0xff, 0x7f]),
    WriteCase(0x800_0000 - 1, [0x7f, 0xff, 0xff, 0x7f]),
    WriteCase(0x1_0000_0000 - 1, [0x7f, 0xff, 0xff, 0xff, 0x1f])
  ]

  /** Every read vector decodes to its expected value and consumes all of its bytes. */
  lemma ReadVectors()
    ensures forall i :: 0 <= i < |ReadCases| ==>
      CompactInt.Decode(ReadCases[i].data) == Some((ReadCases[i].expected, |ReadCases[i].data|))
  {
    ReadVectorsNegative();
    ReadVectorsNonNegative();
  }

  /** The five negative read vectors, -(2^32-1) through -(2^6-1). */
  lemma ReadVectorsNegative()
    ensures forall i :: 0 <= i < 5 ==>
      CompactInt.Decode(ReadCases[i].data) == Some((ReadCases[i].expected, |ReadCases[i].data|))
  {
    assert CompactInt.Decode(ReadCases[0].data) == Some((ReadCases[0].expected, |ReadCases[0].data|));
    assert CompactInt.Decode(ReadCases[1].data) == Some((ReadCases[1].expected, |ReadCases[1].data|));
    assert CompactInt.Decode(ReadCases[2].data) == Some((ReadCases[2].expected, |ReadCases[2].data|));
    assert CompactInt.Decode(ReadCases[3].data) == Some((ReadCases[3].expected, |ReadCases[3].data|));
    assert CompactInt.Decode(ReadCases[4].data) == Some((ReadCases[4].expected, |ReadCases[4].data|));
  }

  /** The six non-negative read vectors, 0 through 2^32-1. */
  lemma ReadVectorsNonNegative()
    ensures forall i :: 5 <= i < |ReadCases| ==>
      CompactInt.Decode(ReadCases[i].data) == Some((ReadCases[i].expected, |ReadCases[i].data|))
  {
    assert CompactInt.Decode(ReadCases[5].data) == Some((ReadCases[5].expected, |ReadCases[5].data|));
    assert CompactInt.Decode(ReadCases[6].data) == Some((ReadCases[6].expected, |ReadCases[6].data|));
    assert CompactInt.Decode(ReadCases[7].data) == Some((ReadCases[7].expected, |ReadCases[7].data|));
    assert CompactInt.Decode(ReadCases[8].data) == Some((ReadCases[8].expected, |ReadCases[8].data|));
    assert CompactInt.Decode(ReadCases[9].data) == Some((ReadCases[9].expected, |ReadCases[9].data|));
    assert CompactInt.Decode(ReadCases[10].data) == Some((ReadCases[10].expected, |ReadCases[10].data|));
  }

  /** Every write vector is in range and encodes to exactly its expected bytes. */
  lemma WriteVectors()
    ensures forall i :: 0 <= i < |WriteCases| ==>
      CompactInt.InRange(WriteCases[i].value) &&
      CompactInt.Encode(WriteCases[i].value) == WriteCases[i].expected
  {
    ReadVectors();
    TablesAgree();
    forall i | 0 <= i < |WriteCases|
      ensures CompactInt.InRange(WriteCases[i].value)
      ensures CompactInt.Encode(WriteCases[i].value) == WriteCases[i].expected
    {
      var c := ReadCases[i];
      assert CompactInt.WellFormed(c.data);
      CompactInt.DecodeWellFormed(c.data);
    }
  }

  /** The two tables list the same (bytes, value) pairs, in the same order. */
  lemma TablesAgree()
    ensures |ReadCases| == |WriteCases|
    ensures forall i :: 0 <= i < |ReadCases| ==>
      ReadCases[i].data == WriteCases[i].expected && ReadCases[i].expected == WriteCases[i].value
  {
  }

  /** test_read_compact_int: decodes each case from a fresh Buffer(data). */
  method TestReadCompactInt() returns (actual: seq<Option<int>>)
    ensures |actual| == |ReadCases|
    ensures forall i :: 0 <= i < |ReadCases| ==> actual[i] == Some(ReadCases[i].expected)
  {
    ReadVectors();
    actual := [];
    for i := 0 to |ReadCases|
      invariant |actual| == i
      invariant forall j :: 0 <= j < i ==> actual[j] == Some(ReadCases[j].expected)
    {
      var buffer := new ByteBuffer.Buffer(ReadCases[i].data);
      var r := buffer.ReadCompactInt();
      actual := actual + [r];
    }
  }

  /** test_write_compact_int: writes each case into a fresh Buffer() and reads get_buffer(). */
  method TestWriteCompactInt() returns (actual: seq<seq<byte>>)
    ensures |actual| == |WriteCases|
    ensures forall i :: 0 <= i < |WriteCases| ==> actual[i] == WriteCases[i].expected
  {
    WriteVectors();
    actual := [];
    for i := 0 to |WriteCases|
      invariant |actual| == i
      invariant forall j :: 0 <= j < i ==> actual[j] == WriteCases[j].expected
    {
      var c := WriteCases[i];
      assert CompactInt.InRange(c.value) && CompactInt.Encode(c.value) == c.expected;
      var buffer := new ByteBuffer.Buffer([]);
      buffer.WriteCompactInt(c.value);
      var written := buffer.GetBuffer();
      assert written == c.expected;
      actual := actual + [written];
    }
  }
}
