/** The ticket reader: a cursor over the bytes of a ticket. It offers the primitive reads
    of a binary reader (one byte, a run of bytes that stops at the end of the data,
    big-endian integers of 2, 4 and 8 bytes) and the ticket's own reads built on them. Each
    read is specified by a function of the data and the starting position giving the value
    read and the position after it. */
module TicketReader {
  import opened Wrappers
  import opened Bytes

  /** Why decoding a ticket stops: a read ran past the end of the data, the signature was
      not found in the data, or the message slice lies outside the data. */
  datatype TicketError = EndOfData | SignatureNotFound | MessageOutOfRange

  datatype Version = Version(major: nat, minor: nat)

  datatype SectionHeader = SectionHeader(sectionType: byte, length: nat)

  datatype DataHeader = DataHeader(dataType: nat, length: nat)

  /** A read from a position: the value and the position after it. */
  type ReadResult<T> = Result<(T, nat), TicketError>

  // ---------------------------------------------------------------------------
  // What each read yields

  function Min(a: nat, b: nat): nat
  {
    if a <= b then a else b
  }

  /** One byte. */
  function ByteAt(data: seq<byte>, pos: nat): ReadResult<byte>
  {
    if pos < |data| then Success((data[pos], pos + 1)) else Failure(EndOfData)
  }

  /** A big-endian unsigned integer of width bytes. */
  function FixedAt(data: seq<byte>, pos: nat, width: nat): ReadResult<nat>
  {
    if pos + width <= |data| then Success((BigEndian(data[pos..pos + width]), pos + width))
    else Failure(EndOfData)
  }

  /** The version: the high nibble of the first byte and the whole second byte. */
  function VersionAt(data: seq<byte>, pos: nat): ReadResult<Version>
  {
    if pos + 2 <= |data| then Success((Version(data[pos] / 16, data[pos + 1]), pos + 2))
    else Failure(EndOfData)
  }

  /** A section header: one ignored byte, the type byte, a big-endian 16-bit length. */
  function SectionHeaderAt(data: seq<byte>, pos: nat): ReadResult<SectionHeader>
  {
    if pos + 4 <= |data| then
      Success((SectionHeader(data[pos + 1], BigEndian(data[pos + 2..pos + 4])), pos + 4))
    else Failure(EndOfData)
  }

  /** A data header: a big-endian 16-bit type and a big-endian 16-bit length. */
  function DataHeaderAt(data: seq<byte>, pos: nat): ReadResult<DataHeader>
  {
    if pos + 4 <= |data| then
      Success((DataHeader(BigEndian(data[pos..pos + 2]), BigEndian(data[pos + 2..pos + 4])), pos + 4))
    else Failure(EndOfData)
  }

  /** A binary field: a data header and then as many of the following length bytes as the
      data still holds. */
  function BinaryAt(data: seq<byte>, pos: nat): ReadResult<seq<byte>>
  {
    match DataHeaderAt(data, pos)
    case Failure(e) => Failure(e)
    case Success((h, q)) =>
      var end := Min(q + h.length, |data|);
      Success((data[q..end], end))
  }

  /** A string field: the bytes of a binary field without their trailing zero bytes. */
  function StringAt(data: seq<byte>, pos: nat): ReadResult<seq<byte>>
  {
    match BinaryAt(data, pos)
    case Failure(e) => Failure(e)
    case Success((bs, q)) => Success((TrimTrailingZeros(bs), q))
  }

  /** A 32-bit field: a data header and a big-endian 4-byte value. */
  function UInt32At(data: seq<byte>, pos: nat): ReadResult<nat>
  {
    if pos + 8 <= |data| then Success((BigEndian(data[pos + 4..pos + 8]), pos + 8))
    else Failure(EndOfData)
  }

  /** A 64-bit field: a data header and a big-endian 8-byte value. */
  function UInt64At(data: seq<byte>, pos: nat): ReadResult<nat>
  {
    if pos + 12 <= |data| then Success((BigEndian(data[pos + 4..pos + 12]), pos + 12))
    else Failure(EndOfData)
  }

  /** An empty field: just a data header. */
  function EmptyAt(data: seq<byte>, pos: nat): ReadResult<()>
  {
    if pos + 4 <= |data| then Success(((), pos + 4)) else Failure(EndOfData)
  }

  /** bs without its trailing zero bytes. */
  function TrimTrailingZeros(bs: seq<byte>): (r: seq<byte>)
    ensures |r| <= |bs| && r == bs[..|r|]
    ensures |r| > 0 ==> r[|r| - 1] != 0
    ensures forall i :: |r| <= i < |bs| ==> bs[i] == 0
  {
    if |bs| > 0 && bs[|bs| - 1] == 0 then TrimTrailingZeros(bs[..|bs| - 1]) else bs
  }

  // ---------------------------------------------------------------------------
  // The reader

  /** The outcome of a read by the reader together with its position after the read, in
      the form the read functions give. */
  function Outcome<T>(r: Result<T, TicketError>, pos: nat): ReadResult<T>
  {
    match r
    case Success(v) => Success((v, pos))
    case Failure(e) => Failure(e)
  }

  class TicketReader {
    var data: seq<byte>
    var pos: nat

    ghost predicate Valid()
      reads this
    {
      pos <= |data|
    }

    constructor (input: seq<byte>)
      ensures Valid() && data == input && pos == 0
    {
      data := input;
      pos := 0;
    }

    /** One byte, or EndOfData at the end of the data. */
    method ReadByte() returns (r: Result<byte, TicketError>)
      requires Valid()
      modifies this
      ensures Valid() && data == old(data)
      ensures Outcome(r, pos) == ByteAt(data, old(pos))
      ensures r.Failure? ==> pos == |data|
    {
      if pos < |data| {
        r := Success(data[pos]);
        pos := pos + 1;
      } else {
        r := Failure(EndOfData);
      }
    }

    /** Up to count bytes: fewer when the data ends first. */
    method ReadBytes(count: nat) returns (bs: seq<byte>)
      requires Valid()
      modifies this
      ensures Valid() && data == old(data)
      ensures pos == Min(old(pos) + count, |data|) && bs == data[old(pos)..pos]
    {
      var end := Min(pos + count, |data|);
      bs := data[pos..end];
      pos := end;
    }

    /** A big-endian integer of width bytes; EndOfData, with the reader at the end of the
        data, when fewer bytes remain. */
    method ReadBigEndian(width: nat) returns (r: Result<nat, TicketError>)
      requires Valid()
      modifies this
      ensures Valid() && data == old(data)
      ensures Outcome(r, pos) == FixedAt(data, old(pos), width)
      ensures r.Failure? ==> pos == |data|
    {
      var bs := ReadBytes(width);
      if |bs| < width {
        r := Failure(EndOfData);
      } else {
        r := Success(BigEndian(bs));
      }
    }

    method ReadUInt16BE() returns (r: Result<nat, TicketError>)
      requires Valid()
      modifies this
      ensures Valid() && data == old(data)
      ensures Outcome(r, pos) == FixedAt(data, old(pos), 2)
      ensures r.Failure? ==> pos == |data|
    {
      r := ReadBigEndian(2);
    }

    method ReadUInt32BE() returns (r: Result<nat, TicketError>)
      requires Valid()
      modifies this
      ensures Valid() && data == old(data)
      ensures Outcome(r, pos) == FixedAt(data, old(pos), 4)
      ensures r.Failure? ==> pos == |data|
    {
      r := ReadBigEndian(4);
    }

    method ReadUInt64BE() returns (r: Result<nat, TicketError>)
      requires Valid()
      modifies this
      ensures Valid() && data == old(data)
      ensures Outcome(r, pos) == FixedAt(data, old(pos), 8)
      ensures r.Failure? ==> pos == |data|
    {
      r := ReadBigEndian(8);
    }

    method ReadTicketVersion() returns (r: Result<Version, TicketError>)
      requires Valid()
      modifies this
      ensures Valid() && data == old(data)
      ensures Outcome(r, pos) == VersionAt(data, old(pos))
      ensures r.Failure? ==> pos == |data|
    {
      var hi := ReadByte();
      if hi.Failure? {
        return Failure(hi.error);
      }
      var lo := ReadByte();
      if lo.Failure? {
        return Failure(lo.error);
      }
      r := Success(Version(hi.value / 16, lo.value));
    }

    method ReadSectionHeader() returns (r: Result<SectionHeader, TicketError>)
      requires Valid()
      modifies this
      ensures Valid() && data == old(data)
      ensures Outcome(r, pos) == SectionHeaderAt(data, old(pos))
      ensures r.Failure? ==> pos == |data|
    {
      var skipped := ReadByte();
      if skipped.Failure? {
        return Failure(skipped.error);
      }
      var sectionType := ReadByte();
      if sectionType.Failure? {
        return Failure(sectionType.error);
      }
      var length := ReadUInt16BE();
      if length.Failure? {
        return Failure(length.error);
      }
      r := Success(SectionHeader(sectionType.value, length.value));
    }

    method ReadDataHeader() returns (r: Result<DataHeader, TicketError>)
      requires Valid()
      modifies this
      ensures Valid() && data == old(data)
      ensures Outcome(r, pos) == DataHeaderAt(data, old(pos))
      ensures r.Failure? ==> pos == |data|
    {
      var dataType := ReadUInt16BE();
      if dataType.Failure? {
        return Failure(dataType.error);
      }
      var length := ReadUInt16BE();
      if length.Failure? {
        return Failure(length.error);
      }
      r := Success(DataHeader(dataType.value, length.value));
    }

    /** The declared type of the field is not checked. */
    method ReadTicketBinary() returns (r: Result<seq<byte>, TicketError>)
      requires Valid()
      modifies this
      ensures Valid() && data == old(data)
      ensures Outcome(r, pos) == BinaryAt(data, old(pos))
      ensures r.Failure? ==> pos == |data|
    {
      var header := ReadDataHeader();
      if header.Failure? {
        return Failure(header.error);
      }
      var bs := ReadBytes(header.value.length);
      r := Success(bs);
    }

    /** The bytes of the string; decoding them as text is not modelled. */
    method ReadTicketString() returns (r: Result<seq<byte>, TicketError>)
      requires Valid()
      modifies this
      ensures Valid() && data == old(data)
      ensures Outcome(r, pos) == StringAt(data, old(pos))
      ensures r.Failure? ==> pos == |data|
    {
      var bs := ReadTicketBinary();
      if bs.Failure? {
        return Failure(bs.error);
      }
      r := Success(TrimTrailingZeros(bs.value));
    }

    method ReadTicketUInt32() returns (r: Result<nat, TicketError>)
      requires Valid()
      modifies this
      ensures Valid() && data == old(data)
      ensures Outcome(r, pos) == UInt32At(data, old(pos))
      ensures r.Failure? ==> pos == |data|
    {
      var header := ReadDataHeader();
      if header.Failure? {
        return Failure(header.error);
      }
      r := ReadUInt32BE();
    }

    method ReadTicketEmpty() returns (r: Result<(), TicketError>)
      requires Valid()
      modifies this
      ensures Valid() && data == old(data)
      ensures Outcome(r, pos) == EmptyAt(data, old(pos))
      ensures r.Failure? ==> pos == |data|
    {
      var header := ReadDataHeader();
      if header.Failure? {
        return Failure(header.error);
      }
      r := Success(());
    }

    method ReadTicketUInt64() returns (r: Result<nat, TicketError>)
      requires Valid()
      modifies this
      ensures Valid() && data == old(data)
      ensures Outcome(r, pos) == UInt64At(data, old(pos))
      ensures r.Failure? ==> pos == |data|
    {
      var header := ReadDataHeader();
      if header.Failure? {
        return Failure(header.error);
      }
      r := ReadUInt64BE();
    }
  }

  // ---------------------------------------------------------------------------
  // Properties of the reads

  /** The declared type of a data field is only asserted in debug builds: overwriting the
      two type bytes changes neither what a field read returns nor how far it reads. */
  lemma FieldTypeIgnored(data: seq<byte>, pos: nat, t0: byte, t1: byte)
    requires pos + 2 <= |data|
    ensures var other := data[pos := t0][pos + 1 := t1];
            && BinaryAt(other, pos) == BinaryAt(data, pos)
            && StringAt(other, pos) == StringAt(data, pos)
            && UInt32At(other, pos) == UInt32At(data, pos)
            && UInt64At(other, pos) == UInt64At(data, pos)
            && EmptyAt(other, pos) == EmptyAt(data, pos)
  {
    var other := data[pos := t0][pos + 1 := t1];
    assert forall i :: 0 <= i < |data| && i != pos && i != pos + 1 ==> other[i] == data[i];
    if pos + 4 <= |data| {
      assert other[pos + 2..pos + 4] == data[pos + 2..pos + 4];
      var end := Min(pos + 4 + BigEndian(data[pos + 2..pos + 4]), |data|);
      assert other[pos + 4..end] == data[pos + 4..end];
      if pos + 8 <= |data| {
        assert other[pos + 4..pos + 8] == data[pos + 4..pos + 8];
      }
      if pos + 12 <= |data| {
        assert other[pos + 4..pos + 12] == data[pos + 4..pos + 12];
      }
    }
  }

  // ---------------------------------------------------------------------------
  // Writing fields, and reading them back

  /** A binary field with the given type and payload. */
  function EncodeBinary(dataType: nat, payload: seq<byte>): seq<byte>
  {
    ToBigEndian(dataType, 2) + ToBigEndian(|payload|, 2) + payload
  }

  /** A 32-bit field with the given type and value. */
  function EncodeUInt32(dataType: nat, v: nat): seq<byte>
  {
    ToBigEndian(dataType, 2) + ToBigEndian(4, 2) + ToBigEndian(v, 4)
  }

  /** A 64-bit field with the given type and value. */
  function EncodeUInt64(dataType: nat, v: nat): seq<byte>
  {
    ToBigEndian(dataType, 2) + ToBigEndian(8, 2) + ToBigEndian(v, 8)
  }

  /** A binary field whose payload fits its 16-bit length reads back as that payload, and
      the read ends right after it, whatever precedes or follows it. */
  lemma BinaryRoundTrip(before: seq<byte>, dataType: nat, payload: seq<byte>, after: seq<byte>)
    requires |payload| < 65536
    ensures BinaryAt(before + EncodeBinary(dataType, payload) + after, |before|)
            == Success((payload, |before| + 4 + |payload|))
  {
    var t, l := ToBigEndian(dataType, 2), ToBigEndian(|payload|, 2);
    var data := before + EncodeBinary(dataType, payload) + after;
    assert data == (before + t) + l + (payload + after);
    Middle(before + t, l, payload + after);
    assert data == (before + t + l) + payload + after;
    Middle(before + t + l, payload, after);
    assert Pow256(2) == 65536;
    DecodeEncode(|payload|, 2);
  }

  /** The middle part of a concatenation, sliced back out. */
  lemma Middle(a: seq<byte>, b: seq<byte>, c: seq<byte>)
    ensures (a + b + c)[|a|..|a| + |b|] == b
  {
  }

  /** A 32-bit field reads back as its value. */
  lemma UInt32RoundTrip(before: seq<byte>, dataType: nat, v: nat, after: seq<byte>)
    requires v < Pow256(4)
    ensures UInt32At(before + EncodeUInt32(dataType, v) + after, |before|) == Success((v, |before| + 8))
  {
    var h, e := ToBigEndian(dataType, 2) + ToBigEndian(4, 2), ToBigEndian(v, 4);
    var data := before + EncodeUInt32(dataType, v) + after;
    assert data == (before + h) + e + after;
    Middle(before + h, e, after);
    DecodeEncode(v, 4);
  }

  /** A 64-bit field reads back as its value. */
  lemma UInt64RoundTrip(before: seq<byte>, dataType: nat, v: nat, after: seq<byte>)
    requires v < Pow256(8)
    ensures UInt64At(before + EncodeUInt64(dataType, v) + after, |before|) == Success((v, |before| + 12))
  {
    var h, e := ToBigEndian(dataType, 2) + ToBigEndian(8, 2), ToBigEndian(v, 8);
    var data := before + EncodeUInt64(dataType, v) + after;
    assert data == (before + h) + e + after;
    Middle(before + h, e, after);
    DecodeEncode(v, 8);
  }
}
