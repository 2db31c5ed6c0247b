/** Decoding a PSN ticket: the version and header, the body fields of the 2.1 or 3.0 layout
    up to the signature, and the choice of signed message, hash and curve by the length of
    the signature. The hash functions are library code and are parameters here. */
module NpTicket {
  import opened Wrappers
  import opened Bytes
  import opened TicketReader

  /** The kinds of field a ticket body holds, as the layouts read them. */
  datatype Field =
    | StringField | BinaryField | UInt32Field | UInt64Field | EmptyField | SectionField
    | RawBytes(count: nat)

  /** The body of a 2.1 ticket: serial, issuer, issue and expiry dates, user id, user name,
      country, domain, title id, status, two padding fields, the footer header, the cipher
      identifier and the signature. */
  const Layout21: seq<Field> :=
    [StringField, UInt32Field, UInt64Field, UInt64Field, UInt64Field, StringField,
     StringField, StringField, StringField, UInt32Field, EmptyField, EmptyField,
     SectionField, BinaryField, BinaryField]

  /** The body of a 3.0 ticket: as 2.1 up to the title id, then the date-of-birth section
      with 4 raw bytes and a 32-bit field, an empty section, the footer header, the cipher
      identifier and the signature. */
  const Layout30: seq<Field> :=
    [StringField, UInt32Field, UInt64Field, UInt64Field, UInt64Field, StringField,
     StringField, StringField, StringField, SectionField, RawBytes(4), UInt32Field,
     SectionField, EmptyField, SectionField, BinaryField, BinaryField]

  /** A read whose value is dropped. */
  function Discard<T>(r: ReadResult<T>): ReadResult<seq<byte>>
  {
    match r
    case Success((_, q)) => Success(([], q))
    case Failure(e) => Failure(e)
  }

  /** Reading one field: its bytes for a string, binary or raw field, nothing for the
      others, and the position after it. */
  function FieldAt(data: seq<byte>, pos: nat, f: Field): ReadResult<seq<byte>>
  {
    match f
    case StringField => StringAt(data, pos)
    case BinaryField => BinaryAt(data, pos)
    case UInt32Field => Discard(UInt32At(data, pos))
    case UInt64Field => Discard(UInt64At(data, pos))
    case EmptyField => Discard(EmptyAt(data, pos))
    case SectionField => Discard(SectionHeaderAt(data, pos))
    case RawBytes(n) =>
      var end := Min(pos + n, |data|);
      if pos <= end then Success((data[pos..end], end)) else Failure(EndOfData)
  }

  /** Reading the fields in order: the bytes of the last one and the position after all of
      fields[k..], or the first failure. */
  function LayoutAt(data: seq<byte>, pos: nat, fields: seq<Field>, k: nat): ReadResult<seq<byte>>
    requires k < |fields|
    decreases |fields| - k
  {
    match FieldAt(data, pos, fields[k])
    case Failure(e) => Failure(e)
    case Success((v, q)) => if k == |fields| - 1 then Success((v, q)) else LayoutAt(data, q, fields, k + 1)
  }

  /** pattern occurs in data at position j. */
  predicate OccursAt(data: seq<byte>, pattern: seq<byte>, j: nat)
  {
    j + |pattern| <= |data| && data[j..j + |pattern|] == pattern
  }

  /** The first position at which pattern occurs in data. */
  function IndexOf(data: seq<byte>, pattern: seq<byte>): (r: Option<nat>)
    ensures r.Some? ==> OccursAt(data, pattern, r.value)
    ensures r.Some? ==> forall j :: 0 <= j < r.value ==> !OccursAt(data, pattern, j)
    ensures r.None? ==> forall j :: !OccursAt(data, pattern, j)
  {
    IndexFrom(data, pattern, 0)
  }

  function IndexFrom(data: seq<byte>, pattern: seq<byte>, start: nat): (r: Option<nat>)
    ensures r.Some? ==> start <= r.value && OccursAt(data, pattern, r.value)
    ensures r.Some? ==> forall j :: start <= j < r.value ==> !OccursAt(data, pattern, j)
    ensures r.None? ==> forall j :: start <= j ==> !OccursAt(data, pattern, j)
    decreases |data| + 1 - start
  {
    if start + |pattern| > |data| then None
    else if OccursAt(data, pattern, start) then Some(start)
    else IndexFrom(data, pattern, start + 1)
  }

  /** The fields a decoded ticket carries. */
  datatype TicketFields = TicketFields(
    signature: seq<byte>,
    message: seq<byte>,
    hashedMessage: seq<byte>,
    hashName: string,
    curveName: string)

  /** The offset of the body: after the 2 version bytes, 4 skipped bytes and the 16-bit
      ticket length. */
  const BodyStart: nat := 8

  /** The signature of a body read with the layout of the given version; versions other
      than 2.1 and 3.0 read no body field and leave it empty. */
  function SignatureFor(data: seq<byte>, pos: nat, version: Version): ReadResult<seq<byte>>
  {
    if version == Version(2, 1) then LayoutAt(data, pos, Layout21, 0)
    else if version == Version(3, 0) then LayoutAt(data, pos, Layout30, 0)
    else Success(([], pos))
  }

  /** Decoding a whole ticket: the version in the first two bytes, the body's section
      header at offset 8 and the body fields after it. A 56-byte signature means SHA-1
      over secp192r1, with the message being the data before the signature's first
      occurrence; any other signature means SHA-224 over secp224k1, with the message being
      the body: its section header and as many bytes as the header's length. */
  function Decode(data: seq<byte>, sha1: seq<byte> -> seq<byte>, sha224: seq<byte> -> seq<byte>)
    : Result<TicketFields, TicketError>
  {
    match HeaderAndSignature(data)
    case Failure(e) => Failure(e)
    case Success((body, signature)) => SelectMessage(data, body, signature, sha1, sha224)
  }

  /** The body's section header and the signature read with the version's layout. */
  function HeaderAndSignature(data: seq<byte>): Result<(SectionHeader, seq<byte>), TicketError>
  {
    if |data| < BodyStart + 4 then Failure(EndOfData)
    else
      var version := Version(data[0] / 16, data[1]);
      var body := SectionHeader(data[BodyStart + 1], BigEndian(data[BodyStart + 2..BodyStart + 4]));
      match SignatureFor(data, BodyStart + 4, version)
      case Failure(e) => Failure(e)
      case Success((signature, _)) => Success((body, signature))
  }

  /** The signed message, its hash and the curve, chosen by the length of the signature. */
  function SelectMessage(data: seq<byte>, body: SectionHeader, signature: seq<byte>,
                         sha1: seq<byte> -> seq<byte>, sha224: seq<byte> -> seq<byte>)
    : Result<TicketFields, TicketError>
  {
    if |signature| == 56 then
      match IndexOf(data, signature)
      case None => Failure(SignatureNotFound)
      case Some(i) =>
        Success(TicketFields(signature, data[..i], sha1(data[..i]), "SHA1", "secp192r1"))
    else if BodyStart + body.length + 4 <= |data| then
      var message := data[BodyStart..BodyStart + body.length + 4];
      Success(TicketFields(signature, message, sha224(message), "SHA224", "secp224k1"))
    else Failure(MessageOutOfRange)
  }

  /** The hash a ticket names: SHA-1 and SHA-224 directly, any other name through the
      library's lookup, and no bytes at all when the library does not know the name. */
  function ComputeHash(data: seq<byte>, hashName: string, sha1: seq<byte> -> seq<byte>,
                       sha224: seq<byte> -> seq<byte>,
                       library: string -> Option<seq<byte> -> seq<byte>>): seq<byte>
  {
    if hashName == "SHA1" then sha1(data)
    else if hashName == "SHA224" then sha224(data)
    else match library(hashName)
      case Some(hash) => hash(data)
      case None => []
  }

  class NpTicket {
    var signature: seq<byte>
    var message: seq<byte>
    var hashedMessage: seq<byte>
    var hashName: string
    var curveName: string
    var r: int
    var s: int

    constructor ()
      ensures signature == [] && message == [] && hashedMessage == []
      ensures hashName == "" && curveName == "" && r == 0 && s == 0
    {
      signature := [];
      message := [];
      hashedMessage := [];
      hashName := "";
      curveName := "";
      r := 0;
      s := 0;
    }

    function Fields(): TicketFields
      reads this
    {
      TicketFields(signature, message, hashedMessage, hashName, curveName)
    }
  }

  /** Reads one field of the given kind, dropping the value of a fixed-width field. */
  method ReadField(reader: TicketReader, f: Field) returns (r: Result<seq<byte>, TicketError>)
    requires reader.Valid()
    modifies reader
    ensures reader.Valid() && reader.data == old(reader.data)
    ensures Outcome(r, reader.pos) == FieldAt(reader.data, old(reader.pos), f)
  {
    match f
    case StringField =>
      r := reader.ReadTicketString();
    case BinaryField =>
      r := reader.ReadTicketBinary();
    case UInt32Field =>
      var v := reader.ReadTicketUInt32();
      r := if v.Success? then Success([]) else Failure(v.error);
    case UInt64Field =>
      var v := reader.ReadTicketUInt64();
      r := if v.Success? then Success([]) else Failure(v.error);
    case EmptyField =>
      var v := reader.ReadTicketEmpty();
      r := if v.Success? then Success([]) else Failure(v.error);
    case SectionField =>
      var v := reader.ReadSectionHeader();
      r := if v.Success? then Success([]) else Failure(v.error);
    case RawBytes(n) =>
      var bs := reader.ReadBytes(n);
      r := Success(bs);
  }

  /** Reads the fields of a layout in order and stores the bytes of the last one, the
      signature, in the ticket; a read that runs past the end of the data stops it. */
  method ReadLayout(ticket: NpTicket, reader: TicketReader, layout: seq<Field>) returns (res: Result<(), TicketError>)
    requires reader.Valid() && layout != []
    modifies ticket`signature, reader
    ensures reader.Valid() && reader.data == old(reader.data)
    ensures var spec := LayoutAt(reader.data, old(reader.pos), layout, 0);
            match res
            case Success(_) => spec == Success((ticket.signature, reader.pos))
            case Failure(e) => spec == Failure(e)
  {
    ghost var d, p := reader.data, reader.pos;
    var i := 0;
    while i < |layout|
      invariant 0 <= i < |layout| && reader.Valid() && reader.data == d
      invariant LayoutAt(d, p, layout, 0) == LayoutAt(d, reader.pos, layout, i)
      decreases |layout| - i
    {
      var r := ReadField(reader, layout[i]);
      if r.Failure? {
        return Failure(r.error);
      }
      if i == |layout| - 1 {
        ticket.signature := r.value;
        return Success(());
      }
      i := i + 1;
    }
  }

  /** The body of a 3.0 ticket, up to and including the signature. */
  method Read30Ticket(ticket: NpTicket, reader: TicketReader) returns (res: Result<(), TicketError>)
    requires reader.Valid()
    modifies ticket`signature, reader
    ensures reader.Valid() && reader.data == old(reader.data)
    ensures var spec := LayoutAt(reader.data, old(reader.pos), Layout30, 0);
            match res
            case Success(_) => spec == Success((ticket.signature, reader.pos))
            case Failure(e) => spec == Failure(e)
  {
    res := ReadLayout(ticket, reader, Layout30);
  }

  /** The body of a 2.1 ticket, up to and including the signature. */
  method Read21Ticket(ticket: NpTicket, reader: TicketReader) returns (res: Result<(), TicketError>)
    requires reader.Valid()
    modifies ticket`signature, reader
    ensures reader.Valid() && reader.data == old(reader.data)
    ensures var spec := LayoutAt(reader.data, old(reader.pos), Layout21, 0);
            match res
            case Success(_) => spec == Success((ticket.signature, reader.pos))
            case Failure(e) => spec == Failure(e)
  {
    res := ReadLayout(ticket, reader, Layout21);
  }

  /** Decodes a ticket into a new ticket object, failing where a read runs past the end of
      the data or the message slice does not fit. */
  method FromBytes(data: seq<byte>, sha1: seq<byte> -> seq<byte>, sha224: seq<byte> -> seq<byte>)
    returns (res: Result<NpTicket, TicketError>)
    ensures match Decode(data, sha1, sha224)
            case Success(fields) => res.Success? && fresh(res.value) && res.value.Fields() == fields
                                    && res.value.r == 0 && res.value.s == 0
            case Failure(e) => res == Failure(e)
  {
    var ticket := new NpTicket();
    var reader := new TicketReader(data);
    var body := ReadHeaderAndBody(ticket, reader);
    if body.Failure? { return Failure(body.error); }
    var selected := SetMessage(ticket, data, BodyStart, body.value, sha1, sha224);
    if selected.Failure? { return Failure(selected.error); }
    res := Success(ticket);
  }

  /** The version, the skipped bytes, the ticket length and the body's section header,
      then the body fields of the version's layout up to the signature. */
  method ReadHeaderAndBody(ticket: NpTicket, reader: TicketReader) returns (res: Result<SectionHeader, TicketError>)
    requires reader.Valid() && reader.pos == 0 && ticket.signature == []
    modifies ticket`signature, reader
    ensures reader.data == old(reader.data)
    ensures match HeaderAndSignature(reader.data)
            case Failure(e) => res == Failure(e)
            case Success((body, signature)) => res == Success(body) && ticket.signature == signature
  {
    ghost var data := reader.data;
    var version := reader.ReadTicketVersion();
    if version.Failure? { return Failure(version.error); }
    var skipped := reader.ReadBytes(4);
    var length := reader.ReadUInt16BE();
    if length.Failure? { return Failure(length.error); }
    assert reader.pos == BodyStart;
    var bodyHeader := reader.ReadSectionHeader();
    if bodyHeader.Failure? { return Failure(bodyHeader.error); }
    assert |data| >= BodyStart + 4 && reader.pos == BodyStart + 4;
    assert version.value == Version(data[0] / 16, data[1]);
    assert bodyHeader.value == SectionHeader(data[BodyStart + 1], BigEndian(data[BodyStart + 2..BodyStart + 4]));
    ghost var spec := SignatureFor(data, BodyStart + 4, version.value);
    var read: Result<(), TicketError> := Success(());
    if version.value == Version(2, 1) {
      read := Read21Ticket(ticket, reader);
      assert spec == LayoutAt(data, BodyStart + 4, Layout21, 0);
    } else if version.value == Version(3, 0) {
      read := Read30Ticket(ticket, reader);
      assert spec == LayoutAt(data, BodyStart + 4, Layout30, 0);
    } else {
      assert spec == Success((ticket.signature, BodyStart + 4));
    }
    if read.Failure? {
      assert spec == Failure(read.error);
      return Failure(read.error);
    }
    assert spec.Success? && spec.value.0 == ticket.signature;
    res := Success(bodyHeader.value);
  }

  /** Chooses the signed message, its hash and the curve by the length of the signature
      already in the ticket. */
  method SetMessage(ticket: NpTicket, data: seq<byte>, bodyStart: nat, bodyHeader: SectionHeader,
                    sha1: seq<byte> -> seq<byte>, sha224: seq<byte> -> seq<byte>)
    returns (res: Result<(), TicketError>)
    requires bodyStart == BodyStart
    modifies ticket`message, ticket`hashedMessage, ticket`hashName, ticket`curveName
    ensures match SelectMessage(data, bodyHeader, ticket.signature, sha1, sha224)
            case Success(fields) => res.Success? && ticket.Fields() == fields
            case Failure(e) => res == Failure(e)
  {
    if |ticket.signature| == 56 {
      var i := IndexOf(data, ticket.signature);
      if i.None? { return Failure(SignatureNotFound); }
      ticket.message := data[..i.value];
      ticket.hashedMessage := sha1(ticket.message);
      ticket.hashName := "SHA1";
      ticket.curveName := "secp192r1";
    } else {
      if bodyStart + bodyHeader.length + 4 > |data| { return Failure(MessageOutOfRange); }
      ticket.message := data[bodyStart..bodyStart + bodyHeader.length + 4];
      ticket.hashedMessage := sha224(ticket.message);
      ticket.hashName := "SHA224";
      ticket.curveName := "secp224k1";
    }
    res := Success(());
  }

  // ---------------------------------------------------------------------------
  // Properties of decoding

  /** Every field's bytes occur in the data (a string's are a prefix of its payload). */
  lemma FieldPayloadOccurs(data: seq<byte>, pos: nat, f: Field)
    requires FieldAt(data, pos, f).Success?
    ensures exists j :: OccursAt(data, FieldAt(data, pos, f).value.0, j)
  {
    var v := FieldAt(data, pos, f).value.0;
    match f
    case StringField =>
      var (bs, q) := BinaryAt(data, pos).value;
      assert pos + 4 <= q <= |data| && bs == data[pos + 4..q];
      assert v == TrimTrailingZeros(bs);
      PrefixOfSlice(data, pos + 4, q, |v|);
      assert OccursAt(data, v, pos + 4);
    case BinaryField =>
      assert OccursAt(data, v, pos + 4);
    case RawBytes(n) =>
      assert OccursAt(data, v, pos);
    case _ =>
      assert OccursAt(data, v, 0);
  }

  /** A prefix of a slice is a slice. */
  lemma PrefixOfSlice(data: seq<byte>, a: nat, b: nat, m: nat)
    requires a <= b <= |data| && m <= b - a
    ensures data[a..b][..m] == data[a..a + m]
  {
  }

  /** The bytes a layout ends with occur in the data. */
  lemma {:induction false} LayoutPayloadOccurs(data: seq<byte>, pos: nat, fields: seq<Field>, k: nat)
    requires k < |fields| && LayoutAt(data, pos, fields, k).Success?
    ensures exists j :: OccursAt(data, LayoutAt(data, pos, fields, k).value.0, j)
    decreases |fields| - k
  {
    FieldPayloadOccurs(data, pos, fields[k]);
    if k < |fields| - 1 {
      LayoutPayloadOccurs(data, FieldAt(data, pos, fields[k]).value.1, fields, k + 1);
    }
  }

  /** Reading a layout fails only by running past the end of the data. */
  lemma {:induction false} LayoutFailsOnlyAtEnd(data: seq<byte>, pos: nat, fields: seq<Field>, k: nat)
    requires k < |fields| && LayoutAt(data, pos, fields, k).Failure?
    ensures LayoutAt(data, pos, fields, k).error == EndOfData
    decreases |fields| - k
  {
    if FieldAt(data, pos, fields[k]).Success? {
      LayoutFailsOnlyAtEnd(data, FieldAt(data, pos, fields[k]).value.1, fields, k + 1);
    }
  }

  /** The signature a version's layout yields occurs in the data. */
  lemma SignatureOccurs(data: seq<byte>, pos: nat, version: Version)
    requires SignatureFor(data, pos, version).Success?
    ensures exists j :: OccursAt(data, SignatureFor(data, pos, version).value.0, j)
  {
    if version == Version(2, 1) {
      LayoutPayloadOccurs(data, pos, Layout21, 0);
    } else if version == Version(3, 0) {
      LayoutPayloadOccurs(data, pos, Layout30, 0);
    } else {
      assert OccursAt(data, [], 0);
    }
  }

  /** The search for a 56-byte signature in the data always succeeds, since the signature
      was read from that data: decoding never fails with SignatureNotFound. */
  lemma SignatureAlwaysFound(data: seq<byte>, sha1: seq<byte> -> seq<byte>, sha224: seq<byte> -> seq<byte>)
    ensures Decode(data, sha1, sha224) != Failure(SignatureNotFound)
  {
    if |data| >= BodyStart + 4 {
      var version := Version(data[0] / 16, data[1]);
      var body := SectionHeader(data[BodyStart + 1], BigEndian(data[BodyStart + 2..BodyStart + 4]));
      var sig := SignatureFor(data, BodyStart + 4, version);
      if sig.Failure? {
        if version == Version(2, 1) {
          LayoutFailsOnlyAtEnd(data, BodyStart + 4, Layout21, 0);
        } else if version == Version(3, 0) {
          LayoutFailsOnlyAtEnd(data, BodyStart + 4, Layout30, 0);
        }
      } else {
        assert Decode(data, sha1, sha224) == SelectMessage(data, body, sig.value.0, sha1, sha224);
        SignatureOccurs(data, BodyStart + 4, version);
        var j :| OccursAt(data, sig.value.0, j);
        assert IndexOf(data, sig.value.0).Some?;
      }
    }
  }

  /** A decoded ticket is the message selection applied to the body header at offset 8
      and the signature its version's layout reads. */
  lemma DecodeSelects(data: seq<byte>, sha1: seq<byte> -> seq<byte>, sha224: seq<byte> -> seq<byte>)
    requires Decode(data, sha1, sha224).Success?
    ensures |data| >= BodyStart + 4
    ensures var sig := SignatureFor(data, BodyStart + 4, Version(data[0] / 16, data[1]));
            && sig.Success?
            && Decode(data, sha1, sha224)
               == SelectMessage(data, SectionHeader(data[BodyStart + 1], BigEndian(data[BodyStart + 2..BodyStart + 4])),
                                sig.value.0, sha1, sha224)
  {
  }

  /** With a 56-byte signature the message is everything before the first occurrence of
      the signature, so message and signature together are a prefix of the data, and the
      ticket names SHA-1 over secp192r1. */
  lemma ShortSignatureMessage(data: seq<byte>, sha1: seq<byte> -> seq<byte>, sha224: seq<byte> -> seq<byte>)
    requires Decode(data, sha1, sha224).Success?
    requires |Decode(data, sha1, sha224).value.signature| == 56
    ensures var t := Decode(data, sha1, sha224).value;
            && |t.message| + 56 <= |data|
            && data[..|t.message| + 56] == t.message + t.signature
            && (forall j :: 0 <= j < |t.message| ==> !OccursAt(data, t.signature, j))
            && t.hashName == "SHA1" && t.curveName == "secp192r1"
  {
    DecodeSelects(data, sha1, sha224);
    var body := SectionHeader(data[BodyStart + 1], BigEndian(data[BodyStart + 2..BodyStart + 4]));
    var sig := SignatureFor(data, BodyStart + 4, Version(data[0] / 16, data[1])).value.0;
    SelectShort(data, body, sig, sha1, sha224);
  }

  lemma SelectShort(data: seq<byte>, body: SectionHeader, signature: seq<byte>,
                    sha1: seq<byte> -> seq<byte>, sha224: seq<byte> -> seq<byte>)
    requires |signature| == 56 && SelectMessage(data, body, signature, sha1, sha224).Success?
    ensures var t := SelectMessage(data, body, signature, sha1, sha224).value;
            && t.signature == signature
            && |t.message| + 56 <= |data|
            && data[..|t.message| + 56] == t.message + t.signature
            && (forall j :: 0 <= j < |t.message| ==> !OccursAt(data, t.signature, j))
            && t.hashName == "SHA1" && t.curveName == "secp192r1"
  {
    var i := IndexOf(data, signature).value;
    assert data[..i + 56] == data[..i] + data[i..i + 56];
  }

  /** With any other signature the message is the body: the 4-byte section header at
      offset 8 and the number of bytes its big-endian length at offset 10 gives; the ticket
      names SHA-224 over secp224k1. */
  lemma OtherSignatureMessage(data: seq<byte>, sha1: seq<byte> -> seq<byte>, sha224: seq<byte> -> seq<byte>)
    requires Decode(data, sha1, sha224).Success?
    requires |Decode(data, sha1, sha224).value.signature| != 56
    ensures var t := Decode(data, sha1, sha224).value;
            && 12 <= |data|
            && t.message == data[8..12 + BigEndian(data[10..12])]
            && t.hashName == "SHA224" && t.curveName == "secp224k1"
  {
    DecodeSelects(data, sha1, sha224);
    var body := SectionHeader(data[BodyStart + 1], BigEndian(data[BodyStart + 2..BodyStart + 4]));
    var sig := SignatureFor(data, BodyStart + 4, Version(data[0] / 16, data[1])).value.0;
    SelectOther(data, body, sig, sha1, sha224);
    assert data[BodyStart + 2..BodyStart + 4] == data[10..12];
  }

  lemma SelectOther(data: seq<byte>, body: SectionHeader, signature: seq<byte>,
                    sha1: seq<byte> -> seq<byte>, sha224: seq<byte> -> seq<byte>)
    requires SelectMessage(data, body, signature, sha1, sha224).Success?
    requires |signature| != 56
    ensures var t := SelectMessage(data, body, signature, sha1, sha224).value;
            && t.signature == signature
            && t.message == data[BodyStart..BodyStart + body.length + 4]
            && t.hashName == "SHA224" && t.curveName == "secp224k1"
  {
  }

  /** The selection stores the hash it names, over the message it stores. */
  lemma SelectHash(data: seq<byte>, body: SectionHeader, signature: seq<byte>,
                   sha1: seq<byte> -> seq<byte>, sha224: seq<byte> -> seq<byte>,
                   library: string -> Option<seq<byte> -> seq<byte>>)
    requires SelectMessage(data, body, signature, sha1, sha224).Success?
    ensures var t := SelectMessage(data, body, signature, sha1, sha224).value;
            t.hashedMessage == ComputeHash(t.message, t.hashName, sha1, sha224, library)
  {
  }

  /** The stored hash is the hash the ticket names, computed over the stored message. */
  lemma HashMatchesName(data: seq<byte>, sha1: seq<byte> -> seq<byte>, sha224: seq<byte> -> seq<byte>,
                        library: string -> Option<seq<byte> -> seq<byte>>)
    requires Decode(data, sha1, sha224).Success?
    ensures var t := Decode(data, sha1, sha224).value;
            t.hashedMessage == ComputeHash(t.message, t.hashName, sha1, sha224, library)
  {
    DecodeSelects(data, sha1, sha224);
    var body := SectionHeader(data[BodyStart + 1], BigEndian(data[BodyStart + 2..BodyStart + 4]));
    var sig := SignatureFor(data, BodyStart + 4, Version(data[0] / 16, data[1])).value.0;
    SelectHash(data, body, sig, sha1, sha224, library);
  }

  /** A ticket whose version is neither 2.1 nor 3.0 has no body fields read: its signature
      is empty, so its message is the body. */
  lemma OtherVersionsHaveNoSignature(data: seq<byte>, sha1: seq<byte> -> seq<byte>, sha224: seq<byte> -> seq<byte>)
    requires |data| >= 2
    requires var v := Version(data[0] / 16, data[1]); v != Version(2, 1) && v != Version(3, 0)
    requires Decode(data, sha1, sha224).Success?
    ensures Decode(data, sha1, sha224).value.signature == []
    ensures Decode(data, sha1, sha224).value.hashName == "SHA224"
  {
  }

  /** Data shorter than the version, skipped bytes, length and body header fails to
      decode, as a read past the end. */
  lemma ShortDataFails(data: seq<byte>, sha1: seq<byte> -> seq<byte>, sha224: seq<byte> -> seq<byte>)
    requires |data| < 12
    ensures Decode(data, sha1, sha224) == Failure(EndOfData)
  {
  }

  /** A decoded ticket names one of the two curves the tool knows. */
  lemma DecodedCurveIsKnown(data: seq<byte>, sha1: seq<byte> -> seq<byte>, sha224: seq<byte> -> seq<byte>)
    requires Decode(data, sha1, sha224).Success?
    ensures var c := Decode(data, sha1, sha224).value.curveName;
            c == "secp192r1" || c == "secp224k1"
  {
    if |Decode(data, sha1, sha224).value.signature| == 56 {
      ShortSignatureMessage(data, sha1, sha224);
    } else {
      OtherSignatureMessage(data, sha1, sha224);
    }
  }
}
