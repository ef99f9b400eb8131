/** The journal frame format: a 24-byte header with a checksum, then the payload. */
module Journal {
  import opened Primitives
  import opened LittleEndian
  import opened Execution
  import opened RecordCodec
  import opened Frames

  // CRC-32 of the checked bytes; every result holds for any checksum function.
  type Checksum = seq<u8> -> u32

  const MAGIC: seq<u8> := [0x52, 0x57, 0x4A, 0x52]
  const FLAG_NONE: u8 := 0

  /** The header fields that the checksum covers. */
  function MetaBytes(version: u16, kind: u8, sequence: u64, payloadLength: u32): (r: seq<u8>)
    ensures |r| == 16
  {
    PutLE(version, 2) + ([kind, FLAG_NONE] + (PutLE(sequence, 8) + PutLE(payloadLength, 4)))
  }

  function HeaderBytes(meta: seq<u8>, checksum: u32): seq<u8> {
    MAGIC + (meta + PutLE(checksum, 4))
  }

  function FrameBytes(crc: Checksum, version: u16, kind: u8, sequence: u64, payload: seq<u8>): seq<u8>
    requires |payload| <= MAX_JOURNAL_PAYLOAD_BYTES
  {
    var meta := MetaBytes(version, kind, sequence, |payload|);
    HeaderBytes(meta, crc(meta + payload)) + payload
  }

  function EncodeFrame(crc: Checksum, sequence: u64, record: JournalRecord, version: u16): Encoded {
    var payload :- EncodeRecord(record, version);
    if |payload| > U32_MAX then Failure(FrameTooLarge(U32_MAX))
    else if |payload| > MAX_JOURNAL_PAYLOAD_BYTES then Failure(FrameTooLarge(|payload|))
    else Success(FrameBytes(crc, version, RecordKind(record), sequence, payload))
  }

  datatype FrameHeader = FrameHeader(version: u16, kind: u8, sequence: u64, payloadLength: nat, checksum: nat, meta: seq<u8>)

  /** The checks on the fixed-size header, in the order in which they are made. */
  function ParseHeader(s: seq<u8>, index: nat, first: Option<u16>): Result<FrameHeader, JournalCodecErrorKind>
  {
    Widths();
    if |s| < FRAME_HEADER_BYTES then Failure(TruncatedHeader)
    else if s[..4] != MAGIC then Failure(InvalidMagic)
    else
      var meta := s[4..20];
      GetBound(meta[..2], 2);
      GetBound(meta[4..12], 8);
      GetBound(meta[12..16], 4);
      var version := GetLE(meta[..2]);
      var sequence := GetLE(meta[4..12]);
      var length := GetLE(meta[12..16]);
      if !SupportedVersion(version) then Failure(UnsupportedVersion(version))
      else if first.Some? && first.value != version then Failure(MixedVersion(first.value, version))
      else if meta[3] != FLAG_NONE then Failure(InvalidFlags(meta[3]))
      else if index > U64_MAX then Failure(IntegerOutOfRange)
      else if sequence != index then Failure(SequenceMismatch(index, sequence))
      else if length > MAX_JOURNAL_PAYLOAD_BYTES then Failure(FrameTooLarge(length))
      else Success(FrameHeader(version, meta[2], sequence, length, GetLE(s[20..24]), meta))
  }

  function DecodePayload(crc: Checksum, header: FrameHeader, payload: seq<u8>): Result<JournalFrame, JournalCodecErrorKind> {
    if crc(header.meta + payload) != header.checksum then Failure(ChecksumMismatch)
    else
      var record :- DecodeRecord(header.kind, payload, header.version);
      Success(JournalFrame(header.version, header.sequence, record))
  }

  /** One frame from the front of the unread bytes, and the bytes behind it. */
  function DecodeFrame(crc: Checksum, s: seq<u8>, index: nat, first: Option<u16>): FrameOutcome {
    var header :- ParseHeader(s, index, first);
    var end := FRAME_HEADER_BYTES + header.payloadLength;
    if |s| < end then Failure(TruncatedPayload)
    else
      var frame :- DecodePayload(crc, header, s[FRAME_HEADER_BYTES..end]);
      Success((frame, s[end..]))
  }

  function Reader(crc: Checksum): FrameReader {
    (s: seq<u8>, index: nat, first: Option<u16>) => DecodeFrame(crc, s, index, first)
  }

  function Writer(crc: Checksum, version: u16): FrameWriter {
    (sequence: nat, record: JournalRecord) =>
      if sequence > U64_MAX then Failure(IntegerOutOfRange) else EncodeFrame(crc, sequence, record, version)
  }

  method EncodeJournal(crc: Checksum, records: seq<JournalRecord>) returns (r: Result<seq<u8>, JournalCodecError>)
    ensures var write := Writer(crc, JOURNAL_SCHEMA_VERSION);
            match r
            case Success(bytes) => FramesEncode(write, records) && bytes == FileOf(write, records)
            case Failure(error) =>
              var k := error.frameIndex;
              k < |records| && FramesEncode(write, records[..k]) && write(k, records[k]) == Failure(error.kind)
  {
    r := EncodeFrames(Writer(crc, JOURNAL_SCHEMA_VERSION), records);
  }

  method DecodeJournal(crc: Checksum, bytes: seq<u8>) returns (r: Result<seq<JournalFrame>, JournalCodecError>)
    ensures Measured(Reader(crc)) && r == Decoded(Reader(crc), bytes)
  {
    ReaderIsSound(crc);
    r := DecodeFrames(Reader(crc), bytes);
  }

  /** Reads the longest valid prefix and the first problem behind it. */
  method InspectJournal(crc: Checksum, bytes: seq<u8>) returns (r: JournalInspection)
    ensures Measured(Reader(crc)) && r == Inspected(Reader(crc), bytes)
  {
    ReaderIsSound(crc);
    r := InspectFrames(Reader(crc), bytes);
  }

  // ---------------------------------------------------------------- the reader is sound

  lemma HeaderIsLocal(s: seq<u8>, s': seq<u8>, index: nat, first: Option<u16>)
    requires |s| >= FRAME_HEADER_BYTES && |s'| >= FRAME_HEADER_BYTES
    requires s[..FRAME_HEADER_BYTES] == s'[..FRAME_HEADER_BYTES]
    ensures ParseHeader(s, index, first) == ParseHeader(s', index, first)
  {
    var h, h' := s[..FRAME_HEADER_BYTES], s'[..FRAME_HEADER_BYTES];
    assert s[..4] == h[..4] == s'[..4];
    assert s[4..20] == h[4..20] == s'[4..20];
    assert s[20..24] == h[20..24] == s'[20..24];
  }

  lemma LengthIsParsed(s: seq<u8>, index: nat, first: Option<u16>)
    requires ParseHeader(s, index, first).Success?
    ensures |s| >= FRAME_HEADER_BYTES && LengthField(s) == ParseHeader(s, index, first).value.payloadLength
    ensures LengthField(s) <= MAX_JOURNAL_PAYLOAD_BYTES
  {
    assert s[4..20][12..16] == s[16..20];
  }

  lemma FrameIsLocal(crc: Checksum, s: seq<u8>, index: nat, first: Option<u16>, t: seq<u8>)
    requires DecodeFrame(crc, s, index, first).Success?
    ensures var (frame, rest) := DecodeFrame(crc, s, index, first).value;
            && |rest| <= |s|
            && DecodeFrame(crc, s[..|s| - |rest|] + t, index, first) == Success((frame, t))
  {
    var end := FRAME_HEADER_BYTES + ParseHeader(s, index, first).value.payloadLength;
    LengthIsParsed(s, index, first);
    var s' := s[..end] + t;
    HeaderIsLocal(s, s', index, first);
    assert s'[FRAME_HEADER_BYTES..end] == s[FRAME_HEADER_BYTES..end];
    assert s'[end..] == t;
  }

  lemma ReaderIsSound(crc: Checksum)
    ensures Measured(Reader(crc)) && Local(Reader(crc))
  {
    var read := Reader(crc);
    forall s, index, first | read(s, index, first).Success?
      ensures |s| >= FRAME_HEADER_BYTES && LengthField(s) <= MAX_JOURNAL_PAYLOAD_BYTES
      ensures FRAME_HEADER_BYTES + LengthField(s) <= |s|
      ensures read(s, index, first).value.1 == s[FRAME_HEADER_BYTES + LengthField(s)..]
    {
      LengthIsParsed(s, index, first);
    }
    forall s, index, first, t ensures Keeps(read, s, index, first, t) {
      if read(s, index, first).Success? {
        FrameIsLocal(crc, s, index, first, t);
      }
    }
  }

  // ---------------------------------------------------------------- round trip of one frame

  lemma MetaFields(version: u16, kind: u8, sequence: u64, length: u32)
    ensures var meta := MetaBytes(version, kind, sequence, length);
            && GetLE(meta[..2]) == version && meta[2] == kind && meta[3] == FLAG_NONE
            && GetLE(meta[4..12]) == sequence && GetLE(meta[12..16]) == length
  {
    var meta := MetaBytes(version, kind, sequence, length);
    Widths();
    GetPut(version, 2);
    GetPut(sequence, 8);
    GetPut(length, 4);
    assert meta[..2] == PutLE(version, 2);
    assert meta[4..12] == PutLE(sequence, 8);
    assert meta[12..16] == PutLE(length, 4);
  }

  lemma HeaderParses(version: u16, kind: u8, sequence: u64, length: nat, checksum: u32, first: Option<u16>, tail: seq<u8>)
    requires SupportedVersion(version) && length <= MAX_JOURNAL_PAYLOAD_BYTES
    requires first == None || first == Some(version)
    ensures var meta := MetaBytes(version, kind, sequence, length);
            && |HeaderBytes(meta, checksum)| == FRAME_HEADER_BYTES
            && ParseHeader(HeaderBytes(meta, checksum) + tail, sequence, first) ==
               Success(FrameHeader(version, kind, sequence, length, checksum, meta))
  {
    var meta := MetaBytes(version, kind, sequence, length);
    var s := HeaderBytes(meta, checksum) + tail;
    MetaFields(version, kind, sequence, length);
    Widths();
    GetPut(checksum, 4);
    assert s[..4] == MAGIC && s[4..20] == meta && s[20..24] == PutLE(checksum, 4);
  }

  /** A frame is read back, whatever follows it. */
  lemma FrameRoundTrip(crc: Checksum, sequence: u64, record: JournalRecord, version: u16, first: Option<u16>, t: seq<u8>)
    requires SupportedVersion(version) && EncodeFrame(crc, sequence, record, version).Success?
    requires Constructible(record) && Readable(record, version)
    requires first == None || first == Some(version)
    ensures DecodeFrame(crc, EncodeFrame(crc, sequence, record, version).value + t, sequence, first) ==
            Success((JournalFrame(version, sequence, Erase(record, version)), t))
  {
    var payload := EncodeRecord(record, version).value;
    var kind := RecordKind(record);
    var meta := MetaBytes(version, kind, sequence, |payload|);
    var header := HeaderBytes(meta, crc(meta + payload));
    var s := (header + payload) + t;
    assert s == header + (payload + t);
    HeaderParses(version, kind, sequence, |payload|, crc(meta + payload), first, payload + t);
    var end := FRAME_HEADER_BYTES + |payload|;
    assert s[FRAME_HEADER_BYTES..end] == payload && s[end..] == t;
    RecordRoundTrip(record, version);
  }

  /** A frame cut anywhere is recognised as torn. */
  lemma FrameTears(crc: Checksum, sequence: u64, record: JournalRecord, version: u16, first: Option<u16>, t: seq<u8>)
    requires SupportedVersion(version) && EncodeFrame(crc, sequence, record, version).Success?
    requires first == None || first == Some(version)
    requires t < EncodeFrame(crc, sequence, record, version).value
    ensures var r := DecodeFrame(crc, t, sequence, first); r.Failure? && TornKind(r.error)
  {
    var payload := EncodeRecord(record, version).value;
    var kind := RecordKind(record);
    var meta := MetaBytes(version, kind, sequence, |payload|);
    var header := HeaderBytes(meta, crc(meta + payload));
    if |t| >= FRAME_HEADER_BYTES {
      HeaderParses(version, kind, sequence, |payload|, crc(meta + payload), first, t[FRAME_HEADER_BYTES..]);
      assert (header + payload)[..FRAME_HEADER_BYTES] == header;
      assert t == header + t[FRAME_HEADER_BYTES..];
    }
  }

  // ---------------------------------------------------------------- whole files

  function FrameOf(version: u16, sequence: nat, record: JournalRecord): JournalFrame {
    JournalFrame(version, if sequence <= U64_MAX then sequence else U64_MAX, Erase(record, version))
  }

  function FramesOf(records: seq<JournalRecord>, version: u16): (r: seq<JournalFrame>)
    ensures |r| == |records| && forall i :: 0 <= i < |r| ==> r[i] == FrameOf(version, i, records[i])
  {
    seq(|records|, i requires 0 <= i < |records| => FrameOf(version, i, records[i]))
  }

  function RecordsOf(frames: seq<JournalFrame>): (r: seq<JournalRecord>)
    ensures |r| == |frames| && forall i :: 0 <= i < |r| ==> r[i] == frames[i].record
  {
    seq(|frames|, i requires 0 <= i < |frames| => frames[i].record)
  }

  /** Records as the program builds them, at a version that can write and read them. */
  ghost predicate Journaled(crc: Checksum, records: seq<JournalRecord>, version: u16) {
    && SupportedVersion(version)
    && FramesEncode(Writer(crc, version), records)
    && forall i :: 0 <= i < |records| ==> Constructible(records[i]) && Readable(records[i], version)
  }

  lemma EncodingReads(crc: Checksum, sequence: nat, record: JournalRecord, version: u16, first: Option<u16>)
    requires SupportedVersion(version) && Writer(crc, version)(sequence, record).Success?
    requires Constructible(record) && Readable(record, version)
    requires first == None || first == Some(version)
    ensures var chunk := Writer(crc, version)(sequence, record).value;
            && ChunkReads(Reader(crc), chunk, sequence, first, FrameOf(version, sequence, record))
            && ChunkTears(Reader(crc), chunk, sequence, first)
  {
    var chunk := EncodeFrame(crc, sequence, record, version).value;
    forall t ensures Reader(crc)(chunk + t, sequence, first) == Success((FrameOf(version, sequence, record), t)) {
      FrameRoundTrip(crc, sequence, record, version, first, t);
    }
    forall t: seq<u8> | [] < t < chunk
      ensures var r := Reader(crc)(t, sequence, first); r.Failure? && TornKind(r.error)
    {
      FrameTears(crc, sequence, record, version, first, t);
    }
  }

  lemma EncodingsRead(crc: Checksum, records: seq<JournalRecord>, version: u16)
    requires Journaled(crc, records, version)
    ensures ChunksRead(Reader(crc), Encodings(Writer(crc, version), records), FramesOf(records, version))
    ensures [] !in Encodings(Writer(crc, version), records)
  {
    var chunks, frames := Encodings(Writer(crc, version), records), FramesOf(records, version);
    forall i | 0 <= i < |records|
      ensures ChunkReads(Reader(crc), chunks[i], i, FirstOf(frames[..i]), frames[i])
      ensures ChunkTears(Reader(crc), chunks[i], i, FirstOf(frames[..i]))
    {
      EncodingReads(crc, i, records[i], version, FirstOf(frames[..i]));
    }
    forall i | 0 <= i < |chunks| ensures chunks[i] != [] {
      assert ChunkReads(Reader(crc), chunks[i], i, FirstOf(frames[..i]), frames[i]);
    }
  }

  /** The file round trip: what decodes is the erased records under the sequence numbers 0, 1, 2, ... */
  lemma JournalRoundTrip(crc: Checksum, records: seq<JournalRecord>, version: u16)
    requires Journaled(crc, records, version)
    ensures Measured(Reader(crc))
    ensures Decoded(Reader(crc), FileOf(Writer(crc, version), records)) == Success(FramesOf(records, version))
  {
    ReaderIsSound(crc);
    EncodingsRead(crc, records, version);
    var bytes := FileOf(Writer(crc, version), records);
    assert bytes + [] == bytes;
    TornTailIsExact(Reader(crc), Encodings(Writer(crc, version), records), FramesOf(records, version), [], []);
  }

  /** At the versions that can be resumed, the records come back unchanged. */
  lemma ResumableRecords(records: seq<JournalRecord>, version: u16)
    requires version >= MIN_RESUMABLE_JOURNAL_SCHEMA_VERSION
    ensures RecordsOf(FramesOf(records, version)) == records
    ensures forall i :: 0 <= i < |records| ==> Readable(records[i], version)
  {
    forall i | 0 <= i < |records|
      ensures Readable(records[i], version)
      ensures Erase(records[i], version) == records[i]
    {
      ResumableVersionsKeepAll(records[i], version);
    }
  }

  /** `k` is the number of whole frames within the first `cut` bytes. */
  ghost predicate WholeFrames(chunks: seq<seq<u8>>, cut: nat, k: nat) {
    && k <= |chunks|
    && |Concat(chunks[..k])| <= cut
    && forall j :: 0 <= j <= |chunks| && |Concat(chunks[..j])| <= cut ==> j <= k
  }

  /** Every byte prefix of a journal is inspected exactly: its whole frames come back, and a torn tail
      is reported if and only if the cut is off a frame boundary. */
  lemma TruncationIsExact(crc: Checksum, records: seq<JournalRecord>, version: u16, cut: nat) returns (k: nat)
    requires Journaled(crc, records, version)
    requires cut <= |FileOf(Writer(crc, version), records)|
    ensures Measured(Reader(crc)) && WholeFrames(Encodings(Writer(crc, version), records), cut, k)
    ensures var r := Inspected(Reader(crc), FileOf(Writer(crc, version), records)[..cut]);
            && r.frames == FramesOf(records, version)[..k]
            && (r.issue.None? <==> cut == |Concat(Encodings(Writer(crc, version), records)[..k])|)
            && (r.issue.Some? ==> r.IsTornTail() && r.issue.value.frameIndex == k)
  {
    ReaderIsSound(crc);
    EncodingsRead(crc, records, version);
    var chunks, frames := Encodings(Writer(crc, version), records), FramesOf(records, version);
    var torn;
    assert Concat(chunks) + [] == Concat(chunks);
    k, torn := CutChunks(chunks, [], cut);
    assert |Concat(chunks)[..cut]| == cut;
    ChunksReadPrefix(Reader(crc), chunks, frames, k);
    var next := if k < |chunks| then chunks[k] else [];
    TornTailIsExact(Reader(crc), chunks[..k], frames[..k], next, torn);
  }
}
