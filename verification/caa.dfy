/** Decoding of DNS Certification Authority Authorization (CAA) RDATA,
    following the wire layout of section 5.1 of RFC 6844:

      flags (1 byte) | tag length n (1 byte) | tag (n bytes, US-ASCII) | value (the rest)

    Only the framing is decoded: flag bits, tag names and values carry no
    meaning here, and the value is returned as opaque bytes. */
module Caa {
  import opened Wrappers
  import opened Bytes

  const TagLenMin: nat := 1
  const TagLenMax: nat := 15

  /** One decoded CAA resource record. */
  datatype CaaRecord = CaaRecord(flags: uint8, tag: string, value: seq<uint8>)

  predicate ValidTagLength(n: int) {
    TagLenMin <= n <= TagLenMax
  }

  /** The byte at offset i, or 0 when the buffer ends before it: an
      unsigned read of an empty chunk yields 0. */
  function ByteAt(rdf: seq<uint8>, i: nat): uint8 {
    if i < |rdf| then rdf[i] else 0
  }

  /** The bytes between offsets lo and hi, both clipped to the buffer's end,
      which is what a stream read returns when the buffer runs out. */
  function Clipped(rdf: seq<uint8>, lo: nat, hi: nat): (r: seq<uint8>)
    requires lo <= hi
  {
    rdf[Min(lo, |rdf|)..Min(hi, |rdf|)]
  }

  /** The bytes read as the tag: as many as the tag-length byte asks for,
      or fewer when the buffer ends first. */
  function TagBytes(rdf: seq<uint8>): seq<uint8> {
    Clipped(rdf, 2, 2 + ByteAt(rdf, 1) as nat)
  }

  /** Decoding of one RDATA buffer over explicit offsets: the reference
      the stream-reading parser ParseRdf is proved against. */
  function Parse(rdf: seq<uint8>): (r: Result<CaaRecord>)
    ensures r.Success? ==> |rdf| >= 2 && ValidTagLength(rdf[1] as int) && r.value.flags == rdf[0]
  {
    var flags := ByteAt(rdf, 0);
    var n := ByteAt(rdf, 1) as nat;
    if !ValidTagLength(n) then Failure
    else match DecodeAscii(TagBytes(rdf))
      case Failure => Failure
      case Success(tag) => Success(CaaRecord(flags, tag, rdf[Min(2 + n, |rdf|)..]))
  }

  /** Reads one byte from the stream as an unsigned number; at the end of
      the stream the empty read counts as 0. */
  method ReadUnsignedByte(stream: ByteStream) returns (b: uint8)
    requires stream.Valid()
    modifies stream
    ensures stream.Valid()
    ensures b == ByteAt(stream.data, old(stream.pos))
    ensures stream.pos == Min(old(stream.pos) + 1, |stream.data|)
  {
    var chunk := stream.Read(1);
    b := if chunk == [] then 0 else chunk[0];
  }

  /** Parses the RDATA of one CAA resource record by reading it in order
      from a fresh stream: flags, tag length, tag, then everything left. */
  method ParseRdf(rdf: seq<uint8>) returns (r: Result<CaaRecord>)
    ensures r == Parse(rdf)
  {
    var stream := new ByteStream(rdf);
    var flags := ReadUnsignedByte(stream);
    var tagLength := ReadUnsignedByte(stream);
    assert tagLength == ByteAt(rdf, 1);
    if !ValidTagLength(tagLength as int) {
      return Failure;
    }
    var tagBytes := stream.Read(tagLength as nat);
    assert tagBytes == TagBytes(rdf);
    var tag :- DecodeAscii(tagBytes);
    var value := stream.ReadAll();
    r := Success(CaaRecord(flags, tag, value));
  }

  /** Parses a list of RDATA buffers, one per resource record, in order;
      a single buffer that fails to parse fails the whole list. */
  function AsCaaList(data: seq<seq<uint8>>): (r: Result<seq<CaaRecord>>)
    ensures r.Success? <==> forall i :: 0 <= i < |data| ==> Parse(data[i]).Success?
    ensures r.Success? ==> |r.value| == |data|
    ensures r.Success? ==> forall i :: 0 <= i < |data| ==> Parse(data[i]) == Success(r.value[i])
  {
    if data == [] then Success([])
    else match Parse(data[0])
      case Failure => Failure
      case Success(record) =>
        match AsCaaList(data[1..])
        case Failure => Failure
        case Success(rest) => Success([record] + rest)
  }

  /** RDATA laid out the way the test suites build it: the flags byte, the
      tag's length as one byte, the tag, then the value. Each field lands
      where the parser reads it. */
  function Encode(flags: uint8, tag: seq<uint8>, value: seq<uint8>): (rdf: seq<uint8>)
    requires |tag| < 0x100
    ensures |rdf| == 2 + |tag| + |value|
    ensures ByteAt(rdf, 0) == flags && ByteAt(rdf, 1) as int == |tag|
    ensures TagBytes(rdf) == tag
    ensures rdf[2 + |tag|..] == value
  {
    var rdf := [flags, |tag| as uint8] + tag + value;
    assert rdf[2..2 + |tag|] == tag;
    rdf
  }

  /** A record the test helper can lay out: a US-ASCII tag whose length
      fits the one-byte length field. */
  predicate Encodable(record: CaaRecord) {
    |record.tag| < 0x100 && IsAsciiString(record.tag)
  }

  /** A record the parser accepts back: an encodable one whose tag is of a
      permitted length. */
  predicate WellFormed(record: CaaRecord) {
    Encodable(record) && ValidTagLength(|record.tag|)
  }

  /** RDATA of one record, its tag encoded as US-ASCII: the bytes the
      parser reads as the tag decode back to the record's tag. */
  function EncodeRecord(record: CaaRecord): (rdf: seq<uint8>)
    requires Encodable(record)
    ensures |rdf| == 2 + |record.tag| + |record.value|
    ensures ByteAt(rdf, 0) == record.flags && ByteAt(rdf, 1) as int == |record.tag|
    ensures DecodeAscii(TagBytes(rdf)) == Success(record.tag)
    ensures rdf[2 + |record.tag|..] == record.value
  {
    AsciiRoundTrip(record.tag);
    Encode(record.flags, EncodeAscii(record.tag), record.value)
  }

  /** RDATA of each record of a list, one buffer per record, in order. */
  function EncodeRecords(records: seq<CaaRecord>): (rdfs: seq<seq<uint8>>)
    requires forall i :: 0 <= i < |records| ==> Encodable(records[i])
    ensures |rdfs| == |records|
    ensures forall i :: 0 <= i < |records| ==>
      ByteAt(rdfs[i], 0) == records[i].flags && DecodeAscii(TagBytes(rdfs[i])) == Success(records[i].tag)
    ensures forall i :: 0 <= i < |records| ==> rdfs[i] == EncodeRecord(records[i])
  {
    seq(|records|, i requires 0 <= i < |records| => EncodeRecord(records[i]))
  }
}
