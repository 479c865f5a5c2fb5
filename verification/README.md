# CAA RDATA decoding

A model of the CAA (Certification Authority Authorization) resource-record
parser of Internet.nl, `RFC6844CAARDataParser` in `checks/tasks/caa.py`.
The parser takes the raw RDATA of a CAA record, laid out as in section 5.1
of RFC 6844 — one flags byte, one tag-length byte `n`, `n` bytes of
US-ASCII tag, and every remaining byte as the value — and returns the
triple (flags, tag, value). It checks only the framing: the tag length
must lie in 1..15 and the tag must be US-ASCII. `as_caa_list` decodes a
list of RDATA buffers in order and fails as a whole when one buffer fails.

Files:

- `wrappers.dfy` — `Result`, with a single `Failure` standing for the
  `ValueError` the parser raises.
- `bytes.dfy` — bytes (`uint8`), strict US-ASCII decoding and encoding, and
  `ByteStream`, the in-memory stream with a read cursor that the parser
  reads from step by step.
- `caa.dfy` — the constants `TagLenMin`/`TagLenMax`, the record type,
  `ReadUnsignedByte`, the stream-reading parser `ParseRdf`, the
  offset-based function `Parse` that `ParseRdf` is proved equal to,
  `AsCaaList`, and the encoder the test suites use to build RDATA
  (`Encode`: `[flags, len(tag)] + tag + value`, with `EncodeRecord` and
  `EncodeRecords` for records whose tag is a string).
- `caa_properties.dfy` — lemmas: the round trips between encoder and
  parser, exactly when parsing fails, what a successful parse holds, and
  how decoding a list relates to decoding its buffers.

Two edge cases, as the code handles them:

- `read(n)` returns whatever bytes remain, so a tag cut short by the end
  of the buffer is not an error: a truncated US-ASCII tag, possibly empty,
  is accepted with an empty value (`TruncatedTagAccepted`).
- A buffer shorter than 2 bytes is not rejected for its length as such:
  each missing header byte reads as 0, and the tag-length check then
  rejects it (`ShortBufferFails`).

## Model

| member | source | states |
|---|---|---|
| `Bytes.DecodeAscii` | checks/tasks/caa.py:60-63 | strict US-ASCII decoding succeeds exactly when every byte is below 0x80, and then gives one character per byte with the same code |
| `Bytes.EncodeAscii` | tests/SetupUnboundContext_test.py:88 | US-ASCII encoding gives one byte per character, with the same code |
| `Bytes.AsciiRoundTrip` | tests/SetupUnboundContext_test.py:88 | decoding an encoded US-ASCII string gives the string back |
| `Bytes.AsciiRoundTripBytes` | checks/tasks/caa.py:61 | encoding a decoded US-ASCII byte string gives the bytes back |
| `Bytes.ByteStream.constructor` | checks/tasks/caa.py:41-42 | a fresh stream over the RDATA has its cursor at the start, so everything remains to be read |
| `Bytes.ByteStream.Read` | checks/tasks/caa.py:61 | a read of n bytes returns the next min(n, remaining) bytes and moves the cursor past exactly those |
| `Bytes.ByteStream.ReadAll` | checks/tasks/caa.py:65 | a read without a size returns every remaining byte and leaves the stream exhausted |
| `Caa.ReadUnsignedByte` | checks/tasks/caa.py:30-32 | returns the next byte as an unsigned number, or 0 when the stream is exhausted, and advances the cursor by at most one byte |
| `Caa.Parse` | checks/tasks/caa.py:53-65 | a successful decoding implies a buffer of at least 2 bytes, a tag-length byte in `TagLenMin`..`TagLenMax` (1..15), and the flags byte returned verbatim |
| `Caa.ParseRdf` | checks/tasks/caa.py:34-65 | reading flags, tag length, tag and the rest from a stream over the buffer gives exactly the offset-based decoding `Parse` |
| `Caa.AsCaaList` | checks/tasks/caa.py:26-28 | the list decodes exactly when every buffer decodes; the result then has one record per buffer, in the same order, each the decoding of its buffer; otherwise the whole call fails |
| `Caa.Encode` | tests/caa_test.py:7-8 | the test helper's RDATA is 2 + tag + value bytes long, with the flags at offset 0, the tag length at offset 1, the tag exactly where the parser reads it, and the value as the rest |
| `Caa.EncodeRecord` | tests/SetupUnboundContext_test.py:87-94 | one record's RDATA: flags at offset 0, tag length at offset 1, the bytes the parser reads as the tag decode back to the record's tag, and the value as the rest |
| `Caa.EncodeRecords` | tests/SetupUnboundContext_test.py:84-96 | one RDATA buffer per record, in order, each carrying its record's flags and a tag that decodes back to the record's tag |
| `CaaProperties.RoundTrip` | checks/tasks/caa.py:53-65 | for any flags, any US-ASCII tag of 1 to 15 characters and any value, decoding `[flags, len(tag)] + tag + value` gives back exactly (flags, tag, value) |
| `CaaProperties.ParseThenEncode` | checks/tasks/caa.py:53-65 | a buffer that decodes with its tag complete is well formed and is exactly the encoding of its decoding |
| `CaaProperties.TagLengthBounds` | checks/tasks/caa.py:56-58 | an encoded record with a US-ASCII tag is accepted if and only if the tag is 1 to 15 bytes long |
| `CaaProperties.ParseFailsIff` | checks/tasks/caa.py:56-63 | decoding fails if and only if the tag-length byte lies outside 1..15 or a tag byte read is 0x80 or more |
| `CaaProperties.NonAsciiTagRejected` | checks/tasks/caa.py:60-63 | with a valid tag length, any tag byte of 0x80 or more makes decoding fail |
| `CaaProperties.ShortBufferFails` | checks/tasks/caa.py:53-58 | a buffer of fewer than 2 bytes reads its tag length as 0 and is rejected |
| `CaaProperties.ParseSucceeds` | checks/tasks/caa.py:53-65 | a successful decoding returns the flags byte verbatim, a tag of min(n, length − 2) characters equal to the bytes from offset 2, and as value every byte after the tag |
| `CaaProperties.ValueIsSuffix` | checks/tasks/caa.py:65 | when the buffer holds the whole tag, the tag has n characters and the value is the unmodified suffix from offset 2 + n, of length length − 2 − n |
| `CaaProperties.TruncatedTagAccepted` | checks/tasks/caa.py:61 | with a valid tag length but fewer tag bytes than it announces, all US-ASCII, decoding succeeds with the shorter tag and an empty value |
| `CaaProperties.AsCaaListAppend` | checks/tasks/caa.py:27-28 | decoding a concatenation of lists succeeds exactly when both parts decode, and gives the concatenation of their decodings |
| `CaaProperties.AsCaaListRoundTrip` | tests/SetupUnboundContext_test.py:84-96 | well-formed records, each encoded in turn, decode back to the same list |
| `CaaProperties.CriticalUnknownTagExample` | tests/SetupUnboundContext_test.py:17 | flags 128 with tag "tbs" and value "Unknown" decode to (128, "tbs", "Unknown"): no flag bit is checked |
| `CaaProperties.ExampleRecords` | tests/SetupUnboundContext_test.py:13-18 | the four example records ("issue", two "iodef", critical "tbs") decode back from their encodings in order, whatever their values |
| `CaaProperties.TagLengthExamples` | tests/caa_test.py:16-35 | a tag of 0 or 16 bytes is rejected, one of 1 or 15 bytes accepted |

## Left out

- The resolution bridge `SetupUnboundContext.resolve` and its A, AAAA and MX handling: it wraps the asynchronous, callback-driven Unbound library, and its source is not part of this model.
- The test doubles `MockUnboundContext` and `SetupUnboundContextThatReturnsMockResponses`: only their CAA byte layout is kept, as `Encode`/`EncodeRecord`.
- Address formatting through `socket.inet_pton` and `ub_data`: calls into foreign libraries.
- `conftest.py`: test configuration only.
- The stream branch of `rdf is BinaryIO`: that test compares the argument with the type itself, so it never holds and the input is always wrapped in a fresh in-memory stream; the model takes the input as a byte sequence.
- Error messages: both `ValueError`s (tag length, non-ASCII tag) are one `Failure`; the message text is not modelled.
- Encode: the test helper's `bytearray([flags, len(tag)])` raises for flags outside 0..255 and for a tag of 256 bytes or more; the model types the flags as a byte and requires a shorter tag instead of modelling those errors, since no test calls the helper with such arguments.
- EncodeAscii: `bytes(tag, 'us-ascii')` raises on a non-ASCII character; the model requires an all-ASCII string instead of modelling that error, since every tag the tests encode is ASCII.
- EncodeRecord: the test helper raises for flags outside 0..255 (`to_bytes(1, …)`), for a non-ASCII tag and for a tag of 256 bytes or more; the model requires an `Encodable` record (ASCII tag under 256 bytes, byte-typed flags) instead of modelling those errors, since every record the tests encode meets it. The same holds for `EncodeRecords`.
- Meaning of CAA properties (the critical bit, known tag names, `iodef` URL schemes, `issue` domain syntax): the parser deliberately does not check them.
