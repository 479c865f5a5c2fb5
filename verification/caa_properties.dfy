/** What the CAA RDATA decoder guarantees: its round trips with the encoder,
    exactly when it fails, what a successful decoding holds, and how decoding
    a list relates to decoding each buffer. */
module CaaProperties {
  import opened Wrappers
  import opened Bytes
  import opened Caa

  /** A record laid out as flags, tag length, US-ASCII tag and value decodes
      back to the same flags, tag and value. */
  lemma RoundTrip(flags: uint8, tag: string, value: seq<uint8>)
    requires ValidTagLength(|tag|) && IsAsciiString(tag)
    ensures Parse(Encode(flags, EncodeAscii(tag), value)) == Success(CaaRecord(flags, tag, value))
  {
    var tagBytes := EncodeAscii(tag);
    var rdf := Encode(flags, tagBytes, value);
    assert ByteAt(rdf, 0) == flags && ByteAt(rdf, 1) as int == |tag|;
    assert TagBytes(rdf) == tagBytes;
    AsciiRoundTrip(tag);
    assert rdf[2 + |tag|..] == value;
  }

  /** A buffer whose tag is complete is exactly the encoding of what it
      decodes to. */
  lemma ParseThenEncode(rdf: seq<uint8>)
    requires Parse(rdf).Success?
    requires |rdf| >= 2 + rdf[1] as int
    ensures WellFormed(Parse(rdf).value)
    ensures EncodeRecord(Parse(rdf).value) == rdf
  {
  }

  /** With a US-ASCII tag, the encoded record is accepted exactly when the
      tag is 1 to 15 bytes long. */
  lemma TagLengthBounds(flags: uint8, tag: seq<uint8>, value: seq<uint8>)
    requires |tag| < 0x100 && IsAscii(tag)
    ensures Parse(Encode(flags, tag, value)).Success? <==> TagLenMin <= |tag| <= TagLenMax
  {
  }

  /** Decoding fails exactly when the tag-length byte is outside 1 to 15 or
      a tag byte read is not US-ASCII. */
  lemma ParseFailsIff(rdf: seq<uint8>)
    ensures Parse(rdf).Failure? <==> !ValidTagLength(ByteAt(rdf, 1) as int) || !IsAscii(TagBytes(rdf))
  {
  }

  /** A tag byte of 0x80 or more is rejected, never replaced or dropped. */
  lemma NonAsciiTagRejected(rdf: seq<uint8>, i: nat)
    requires ValidTagLength(ByteAt(rdf, 1) as int)
    requires 2 <= i < |rdf| && i < 2 + ByteAt(rdf, 1) as int
    requires rdf[i] >= 0x80
    ensures Parse(rdf) == Failure
  {
  }

  /** A buffer too short to hold the header reads its missing bytes as 0 and
      so always fails the tag-length check. */
  lemma ShortBufferFails(rdf: seq<uint8>)
    requires |rdf| < 2
    ensures ByteAt(rdf, 1) == 0
    ensures Parse(rdf) == Failure
  {
  }

  /** What a successful decoding holds: the flags byte verbatim, the tag
      read as US-ASCII from offset 2, and every byte after the tag as the
      value. */
  lemma ParseSucceeds(rdf: seq<uint8>)
    requires Parse(rdf).Success?
    ensures var record, n := Parse(rdf).value, rdf[1] as int;
      && |rdf| >= 2 && ValidTagLength(n)
      && record.flags == rdf[0]
      && |record.tag| == Min(n, |rdf| - 2)
      && (forall k :: 0 <= k < |record.tag| ==> record.tag[k] as int == rdf[2 + k] as int)
      && record.value == rdf[Min(2 + n, |rdf|)..]
  {
  }

  /** When the tag is complete, the value is the unmodified suffix after it,
      |rdf| - 2 - n bytes long. */
  lemma ValueIsSuffix(rdf: seq<uint8>)
    requires Parse(rdf).Success?
    requires |rdf| >= 2 + rdf[1] as int
    ensures |Parse(rdf).value.tag| == rdf[1] as int
    ensures Parse(rdf).value.value == rdf[2 + rdf[1] as int..]
    ensures |Parse(rdf).value.value| == |rdf| - 2 - rdf[1] as int
  {
  }

  /** A tag cut short by the end of the buffer is not an error: the bytes
      that are there become the tag and the value is empty. */
  lemma TruncatedTagAccepted(rdf: seq<uint8>)
    requires |rdf| >= 2 && ValidTagLength(rdf[1] as int)
    requires |rdf| < 2 + rdf[1] as int
    requires IsAscii(rdf[2..])
    ensures Parse(rdf).Success?
    ensures |Parse(rdf).value.tag| == |rdf| - 2 < rdf[1] as int
    ensures Parse(rdf).value.value == []
  {
  }

  /** Decoding a concatenation of lists succeeds exactly when both parts
      decode, and gives the concatenation of their decodings. */
  lemma {:induction false} AsCaaListAppend(a: seq<seq<uint8>>, b: seq<seq<uint8>>)
    ensures AsCaaList(a + b).Success? <==> AsCaaList(a).Success? && AsCaaList(b).Success?
    ensures AsCaaList(a + b).Success? ==> AsCaaList(a + b).value == AsCaaList(a).value + AsCaaList(b).value
  {
    if AsCaaList(a + b).Success? {
      PartsParsed(a, b);
    }
    if AsCaaList(a).Success? && AsCaaList(b).Success? {
      AllParsedAppend(a, b);
      ParsedValuesAppend(a, b);
    }
  }

  /** If the concatenation decodes, so does each part. */
  lemma PartsParsed(a: seq<seq<uint8>>, b: seq<seq<uint8>>)
    requires AsCaaList(a + b).Success?
    ensures AsCaaList(a).Success? && AsCaaList(b).Success?
  {
    var ab := a + b;
    forall i | 0 <= i < |a| ensures Parse(a[i]).Success? {
      assert ab[i] == a[i];
    }
    forall i | 0 <= i < |b| ensures Parse(b[i]).Success? {
      assert ab[|a| + i] == b[i];
    }
  }

  /** If both parts decode, so does the concatenation. */
  lemma AllParsedAppend(a: seq<seq<uint8>>, b: seq<seq<uint8>>)
    requires AsCaaList(a).Success? && AsCaaList(b).Success?
    ensures AsCaaList(a + b).Success?
  {
    var ab := a + b;
    forall i | 0 <= i < |ab| ensures Parse(ab[i]).Success? {
      if i < |a| {
        assert ab[i] == a[i];
      } else {
        assert ab[i] == b[i - |a|];
      }
    }
  }

  /** The decoding of a concatenation is the concatenation of the decodings. */
  lemma ParsedValuesAppend(a: seq<seq<uint8>>, b: seq<seq<uint8>>)
    requires AsCaaList(a).Success? && AsCaaList(b).Success? && AsCaaList(a + b).Success?
    ensures AsCaaList(a + b).value == AsCaaList(a).value + AsCaaList(b).value
  {
    var ab, l, ra, rb := a + b, AsCaaList(a + b).value, AsCaaList(a).value, AsCaaList(b).value;
    forall i | 0 <= i < |ab| ensures l[i] == (ra + rb)[i] {
      if i < |a| {
        assert ab[i] == a[i];
        assert Parse(ab[i]) == Success(l[i]);
        assert Parse(a[i]) == Success(ra[i]);
      } else {
        assert ab[i] == b[i - |a|];
        assert Parse(ab[i]) == Success(l[i]);
        assert Parse(b[i - |a|]) == Success(rb[i - |a|]);
      }
    }
  }

  /** Records with US-ASCII tags of 1 to 15 characters, encoded in order,
      decode back to the same list. */
  lemma {:induction false} AsCaaListRoundTrip(records: seq<CaaRecord>)
    requires forall i :: 0 <= i < |records| ==> Encodable(records[i]) && ValidTagLength(|records[i].tag|)
    ensures AsCaaList(EncodeRecords(records)) == Success(records)
  {
    var rdfs := EncodeRecords(records);
    forall i | 0 <= i < |records| ensures Parse(rdfs[i]) == Success(records[i]) {
      RoundTrip(records[i].flags, records[i].tag, records[i].value);
    }
    var r := AsCaaList(rdfs);
    assert r.value == records;
  }

  /** A critical flag of 128 on the unknown tag "tbs" is returned as it
      is, with its value. */
  lemma CriticalUnknownTagExample()
    ensures Parse([128, 3] + EncodeAscii("tbs") + EncodeAscii("Unknown"))
      == Success(CaaRecord(128, "tbs", EncodeAscii("Unknown")))
  {
    RoundTrip(128, "tbs", EncodeAscii("Unknown"));
  }

  /** Records based on the examples of RFC 6844 (an "issue" property, two
      "iodef" properties and a critical "tbs" one), whatever
      their values, decode back from their encodings in order. */
  lemma ExampleRecords(issuer: seq<uint8>, mailto: seq<uint8>, url: seq<uint8>, unknown: seq<uint8>)
    ensures var records := [
      CaaRecord(0, "issue", issuer),
      CaaRecord(0, "iodef", mailto),
      CaaRecord(0, "iodef", url),
      CaaRecord(128, "tbs", unknown)];
      AsCaaList(EncodeRecords(records)) == Success(records)
  {
    var records := [
      CaaRecord(0, "issue", issuer),
      CaaRecord(0, "iodef", mailto),
      CaaRecord(0, "iodef", url),
      CaaRecord(128, "tbs", unknown)];
    AsCaaListRoundTrip(records);
  }

  /** A tag of n copies of the digit "0" with the value "n/a": accepted for
      n = 1 and n = 15, rejected for n = 0 and n = 16. */
  lemma TagLengthExamples()
    ensures Parse(Encode(0, [], EncodeAscii("n/a"))) == Failure
    ensures Parse(Encode(0, seq(1, _ => 0x30), EncodeAscii("n/a"))).Success?
    ensures Parse(Encode(0, seq(15, _ => 0x30), EncodeAscii("n/a"))).Success?
    ensures Parse(Encode(0, seq(16, _ => 0x30), EncodeAscii("n/a"))) == Failure
  {
    var value := EncodeAscii("n/a");
    TagLengthBounds(0, [], value);
    TagLengthBounds(0, seq(1, _ => 0x30), value);
    TagLengthBounds(0, seq(15, _ => 0x30), value);
    TagLengthBounds(0, seq(16, _ => 0x30), value);
  }
}
