/** Bytes, an in-memory binary stream with a read cursor, and strict
    US-ASCII decoding and encoding. */
module Bytes {
  import opened Wrappers

  newtype uint8 = x: int | 0 <= x < 0x100

  function Min(a: int, b: int): int {
    if a <= b then a else b
  }

  /** Every byte is a 7-bit US-ASCII code. */
  predicate IsAscii(bs: seq<uint8>) {
    forall i :: 0 <= i < |bs| ==> bs[i] < 0x80
  }

  /** Every character is a 7-bit US-ASCII code point. */
  predicate IsAsciiString(s: string) {
    forall i :: 0 <= i < |s| ==> s[i] < 0x80 as char
  }

  /** Strict US-ASCII decoding: each byte below 0x80 becomes the character
      with the same code; any other byte makes the whole decoding fail. */
  function DecodeAscii(bs: seq<uint8>): (r: Result<string>)
    ensures r.Success? <==> IsAscii(bs)
    ensures r.Success? ==> |r.value| == |bs|
    ensures r.Success? ==> forall i :: 0 <= i < |bs| ==> r.value[i] as int == bs[i] as int
  {
    if bs == [] then Success([])
    else if bs[0] >= 0x80 then Failure
    else match DecodeAscii(bs[1..])
      case Failure => Failure
      case Success(rest) => Success([bs[0] as int as char] + rest)
  }

  /** US-ASCII encoding of a string whose characters are all below 0x80. */
  function EncodeAscii(s: string): (bs: seq<uint8>)
    requires IsAsciiString(s)
    ensures |bs| == |s|
    ensures forall i :: 0 <= i < |s| ==> bs[i] as int == s[i] as int
  {
    if s == [] then [] else [s[0] as int as uint8] + EncodeAscii(s[1..])
  }

  /** Decoding undoes encoding. */
  lemma AsciiRoundTrip(s: string)
    requires IsAsciiString(s)
    ensures DecodeAscii(EncodeAscii(s)) == Success(s)
  {
    var bs := EncodeAscii(s);
    var r := DecodeAscii(bs);
    assert IsAscii(bs);
    assert |r.value| == |s|;
    forall i | 0 <= i < |s| ensures r.value[i] == s[i] {
      assert r.value[i] as int == bs[i] as int == s[i] as int;
    }
    assert r.value == s;
  }

  /** Encoding undoes decoding. */
  lemma AsciiRoundTripBytes(bs: seq<uint8>)
    requires IsAscii(bs)
    ensures IsAsciiString(DecodeAscii(bs).value)
    ensures EncodeAscii(DecodeAscii(bs).value) == bs
  {
  }

  /** An in-memory binary stream over a fixed buffer: each read returns the
      bytes from the cursor on, at most as many as asked for, and moves the
      cursor past them. */
  class ByteStream {
    const data: seq<uint8>
    var pos: nat

    ghost predicate Valid()
      reads this
    {
      pos <= |data|
    }

    constructor (bytes: seq<uint8>)
      ensures Valid()
      ensures data == bytes && pos == 0
    {
      data := bytes;
      pos := 0;
    }

    /** Reads up to n bytes; fewer when the stream ends first. */
    method Read(n: nat) returns (chunk: seq<uint8>)
      requires Valid()
      modifies this
      ensures Valid()
      ensures pos == Min(old(pos) + n, |data|)
      ensures chunk == data[old(pos)..pos]
    {
      var end := Min(pos + n, |data|);
      chunk := data[pos..end];
      pos := end;
    }

    /** Reads everything up to the end of the stream. */
    method ReadAll() returns (chunk: seq<uint8>)
      requires Valid()
      modifies this
      ensures Valid()
      ensures pos == |data|
      ensures chunk == data[old(pos)..]
    {
      chunk := data[pos..];
      pos := |data|;
    }
  }
}
