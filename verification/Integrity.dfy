/** What it takes for bytes to be read as frames of a journal, said of the bytes alone: nothing is read that is not
    intact, whatever is intact is read, and a frame with an exchanged payload is refused. */
module Integrity {
  import opened Primitives
  import opened LittleEndian
  import opened Execution
  import opened RecordCodec
  import opened Frames
  import opened Journal

  /** The bytes of one frame: the four letters RWJR, a version, the kind of record, no flags, its number, the length
      of the payload, and the checksum of all that lies behind the letters but the checksum itself. */
  ghost predicate HasAllFields(crc: Checksum, bytes: seq<u8>, index: nat, frame: JournalFrame) {
    && |bytes| >= 24 && bytes[..4] == [0x52, 0x57, 0x4A, 0x52]
    && 1 <= GetLE(bytes[4..6]) == frame.schemaVersion <= 6
    && bytes[7] == 0
    && GetLE(bytes[8..16]) == index == frame.sequence
    && GetLE(bytes[16..20]) == |bytes| - 24 <= MAX_JOURNAL_PAYLOAD_BYTES
    && GetLE(bytes[20..24]) == crc(bytes[4..20] + bytes[24..])
    && DecodeRecord(bytes[6], bytes[24..], frame.schemaVersion) == Success(frame.record)
  }

  ghost predicate Intact(crc: Checksum, bytes: seq<u8>, index: nat, frame: JournalFrame) {
    forall x {:trigger Unsealed(FrameSeal, x)} :: Unsealed(FrameSeal, x) ==> HasAllFields(crc, bytes, index, frame)
  }

  /** Intact frames under the numbers 0, 1, 2, ..., all at the version of the first. */
  ghost predicate IntactFrames(crc: Checksum, chunks: seq<seq<u8>>, frames: seq<JournalFrame>) {
    && |chunks| == |frames|
    && forall i :: 0 <= i < |chunks| ==> Intact(crc, chunks[i], i, frames[i]) && frames[i].schemaVersion == frames[0].schemaVersion
  }

  /** The version that is asked of a frame behind those. */
  ghost predicate Follows(frames: seq<JournalFrame>, frame: JournalFrame) {
    frames != [] ==> frame.schemaVersion == frames[0].schemaVersion
  }

  /** No frame starts here. */
  ghost predicate NoneFollows(crc: Checksum, frames: seq<JournalFrame>, rest: seq<u8>) {
    forall end, frame :: 0 <= end <= |rest| && Follows(frames, frame) ==> !Intact(crc, rest[..end], |frames|, frame)
  }

  /** What a refusal says of the bytes that are to start with frame `index`: something is wrong with its fields... */
  ghost predicate IsFault(crc: Checksum, s: seq<u8>, index: nat, first: Option<u16>, kind: JournalCodecErrorKind) {
    match kind
    case TruncatedHeader => |s| < 24
    case InvalidMagic => |s| >= 24 && s[..4] != [0x52, 0x57, 0x4A, 0x52]
    case UnsupportedVersion(version) => |s| >= 24 && GetLE(s[4..6]) == version && !(1 <= version <= 6)
    case MixedVersion(expected, found) => |s| >= 24 && GetLE(s[4..6]) == found && first == Some(expected) && expected != found
    case InvalidFlags(flags) => |s| >= 24 && s[7] == flags != 0
    case SequenceMismatch(expected, found) => |s| >= 24 && GetLE(s[8..16]) == found && expected == index && expected != found
    case FrameTooLarge(length) => |s| >= 24 && GetLE(s[16..20]) == length > MAX_JOURNAL_PAYLOAD_BYTES
    case TruncatedPayload => 24 <= |s| < 24 + GetLE(s[16..20])
    case ChecksumMismatch =>
      && 24 <= |s| && 24 + GetLE(s[16..20]) <= |s|
      && GetLE(s[20..24]) != crc(s[4..20] + s[24..24 + GetLE(s[16..20])])
    case IntegerOutOfRange => index > U64_MAX
    case _ => false
  }

  /** ...or they fit, and the payload is none of such a record. */
  ghost predicate IsReason(crc: Checksum, s: seq<u8>, index: nat, first: Option<u16>, kind: JournalCodecErrorKind) {
    || IsFault(crc, s, index, first, kind)
    || (24 <= |s| && 24 + GetLE(s[16..20]) <= |s| && GetLE(s[4..6]) <= 6
        && DecodeRecord(s[6], s[24..24 + GetLE(s[16..20])], GetLE(s[4..6])) == Failure(kind))
  }

  // ---------------------------------------------------------------- one frame

  lemma FieldsLieInPlace(s: seq<u8>)
    requires |s| >= 24
    ensures var meta := s[4..20];
            && meta[..2] == s[4..6] && meta[2] == s[6] && meta[3] == s[7] && meta[4..12] == s[8..16] && meta[12..16] == s[16..20]
  {
    assert s[4..20][..2] == s[4..6] && s[4..20][4..12] == s[8..16] && s[4..20][12..16] == s[16..20];
  }

  /** What is read was intact, and the rest is the rest. */
  lemma ReadIsIntact(crc: Checksum, s: seq<u8>, index: nat, first: Option<u16>)
    requires DecodeFrame(crc, s, index, first).Success?
    ensures var (frame, rest) := DecodeFrame(crc, s, index, first).value;
            && |rest| <= |s| && s == s[..|s| - |rest|] + rest
            && Intact(crc, s[..|s| - |rest|], index, frame)
            && (first.Some? ==> frame.schemaVersion == first.value)
  {
    FieldsLieInPlace(s);
    var (frame, rest) := DecodeFrame(crc, s, index, first).value;
    var end := 24 + ParseHeader(s, index, first).value.payloadLength;
    assert rest == s[end..] && |s| - |rest| == end;
    var bytes := s[..end];
    FieldsLieInPlace(bytes);
    assert bytes[..4] == s[..4] && bytes[4..20] == s[4..20] && bytes[20..24] == s[20..24];
    assert bytes[24..] == s[24..|bytes|];
  }

  lemma RefusalsHaveReason(crc: Checksum, s: seq<u8>, index: nat, first: Option<u16>, kind: JournalCodecErrorKind)
    requires DecodeFrame(crc, s, index, first) == Failure(kind)
    ensures IsReason(crc, s, index, first, kind)
  {
    if |s| >= 24 {
      FieldsLieInPlace(s);
    }
  }

  /** What is intact is read. */
  lemma IntactIsRead(crc: Checksum, bytes: seq<u8>, index: nat, first: Option<u16>, frame: JournalFrame, rest: seq<u8>)
    requires Intact(crc, bytes, index, frame) && (first.Some? ==> frame.schemaVersion == first.value)
    ensures DecodeFrame(crc, bytes + rest, index, first) == Success((frame, rest))
  {
    assert Unsealed(FrameSeal, 0);
    var s := bytes + rest;
    FieldsLieInPlace(s);
    FieldsLieInPlace(bytes);
    assert s[..4] == bytes[..4] && s[4..20] == bytes[4..20] && s[20..24] == bytes[20..24];
    assert s[24..|bytes|] == bytes[24..] && s[|bytes|..] == rest;
  }

  // ---------------------------------------------------------------- whole files

  /** A chunk is read as a frame if and only if it is its intact bytes. */
  lemma ReadMeansIntact(crc: Checksum, chunk: seq<u8>, index: nat, first: Option<u16>, frame: JournalFrame)
    ensures ChunkReads(Reader(crc), chunk, index, first, frame) <==>
              Intact(crc, chunk, index, frame) && (first.Some? ==> frame.schemaVersion == first.value)
  {
    if ChunkReads(Reader(crc), chunk, index, first, frame) {
      assert Reader(crc)(chunk + [], index, first) == Success((frame, []));
      ReadIsIntact(crc, chunk + [], index, first);
      assert (chunk + [])[..|chunk|] == chunk;
    }
    if Intact(crc, chunk, index, frame) && (first.Some? ==> frame.schemaVersion == first.value) {
      forall t ensures Reader(crc)(chunk + t, index, first) == Success((frame, t)) {
        IntactIsRead(crc, chunk, index, first, frame, t);
      }
      assert |chunk| >= 24 by { assert Unsealed(FrameSeal, 0); }
    }
  }

  lemma InTurnMeansIntact(crc: Checksum, chunks: seq<seq<u8>>, frames: seq<JournalFrame>)
    ensures ReadInTurn(Reader(crc), chunks, frames) <==> IntactFrames(crc, chunks, frames)
  {
    assert Unsealed(TurnSeal, 0);
    if |chunks| == |frames| {
      forall i | 0 <= i < |chunks|
        ensures i > 0 ==> FirstOf(frames[..i]) == Some(frames[0].schemaVersion)
        ensures ChunkReads(Reader(crc), chunks[i], i, FirstOf(frames[..i]), frames[i]) <==>
                  Intact(crc, chunks[i], i, frames[i]) && frames[i].schemaVersion == frames[0].schemaVersion
      {
        ReadMeansIntact(crc, chunks[i], i, FirstOf(frames[..i]), frames[i]);
      }
    }
  }

  lemma NoneIsRead(crc: Checksum, s: seq<u8>, before: seq<JournalFrame>)
    requires DecodeFrame(crc, s, |before|, FirstOf(before)).Failure?
    ensures NoneFollows(crc, before, s)
  {
    forall end, frame | 0 <= end <= |s| && Follows(before, frame) ensures !Intact(crc, s[..end], |before|, frame) {
      assert s[..end] + s[end..] == s;
      if Intact(crc, s[..end], |before|, frame) {
        IntactIsRead(crc, s[..end], |before|, FirstOf(before), frame, s[end..]);
      }
    }
  }

  /** Inspection returns intact frames and nothing else, and stops where no intact frame follows, for the reason
      that it reports. */
  lemma InspectedIsIntact(crc: Checksum, bytes: seq<u8>) returns (chunks: seq<seq<u8>>, rest: seq<u8>)
    ensures Measured(Reader(crc))
    ensures var r := Inspected(Reader(crc), bytes);
            && IntactFrames(crc, chunks, r.frames) && bytes == Concat(chunks) + rest
            && (r.issue.None? <==> rest == [])
            && (r.issue.Some? ==>
                  && r.issue.value.frameIndex == |r.frames| && NoneFollows(crc, r.frames, rest)
                  && IsReason(crc, rest, |r.frames|, FirstOf(r.frames), r.issue.value.kind))
  {
    ReaderIsSound(crc);
    chunks := ScanSplits(Reader(crc), bytes, [], []);
    assert Concat([]) + bytes == bytes;
    var t := Scan(Reader(crc), bytes, 0, FirstOf([]));
    rest := t.unread;
    assert [] + t.frames == t.frames;
    InTurnMeansIntact(crc, chunks, t.frames);
    if t.issue.Some? {
      NoneIsRead(crc, rest, t.frames);
      RefusalsHaveReason(crc, rest, |t.frames|, FirstOf(t.frames), t.issue.value.kind);
    }
  }

  /** A file decodes to these frames if and only if it consists of their intact bytes. */
  lemma DecodedIsIntact(crc: Checksum, bytes: seq<u8>, frames: seq<JournalFrame>)
    ensures Measured(Reader(crc))
    ensures Decoded(Reader(crc), bytes) == Success(frames) <==>
              exists chunks :: IntactFrames(crc, chunks, frames) && bytes == Concat(chunks)
  {
    var read, rest := InspectedIsIntact(crc, bytes);
    if Decoded(Reader(crc), bytes) == Success(frames) {
      assert Concat(read) + [] == Concat(read);
      assert IntactFrames(crc, read, frames) && bytes == Concat(read);
    }
    if chunks :| IntactFrames(crc, chunks, frames) && bytes == Concat(chunks) {
      InTurnMeansIntact(crc, chunks, frames);
      ScanChunks(Reader(crc), chunks, frames, []);
      assert Concat(chunks) + [] == Concat(chunks) && frames + [] == frames;
    }
  }

  // ---------------------------------------------------------------- damage is seen

  /** A frame with another kind or another payload of the same length, under the old checksum. */
  ghost predicate IsExchanged(crc: Checksum, bytes: seq<u8>, other: seq<u8>) {
    && |other| == |bytes| >= 24
    && other[..6] == bytes[..6] && other[7..24] == bytes[7..24]
    && crc(other[4..20] + other[24..]) != crc(bytes[4..20] + bytes[24..])
  }

  lemma SameFields(bytes: seq<u8>, other: seq<u8>)
    requires |bytes| >= 24 && |other| >= 24 && bytes[..6] == other[..6] && bytes[7..24] == other[7..24]
    ensures bytes[..4] == other[..4] && bytes[4..6] == other[4..6] && bytes[7] == other[7]
    ensures bytes[8..16] == other[8..16] && bytes[16..20] == other[16..20] && bytes[20..24] == other[20..24]
  {
    assert forall i :: 0 <= i < 6 ==> bytes[i] == bytes[..6][i] && other[i] == other[..6][i];
    forall i | 7 <= i < 24 ensures bytes[i] == other[i] {
      assert bytes[i] == bytes[7..24][i - 7] && other[i] == other[7..24][i - 7];
    }
  }

  lemma ExchangedIsRefused(crc: Checksum, bytes: seq<u8>, other: seq<u8>, index: nat, first: Option<u16>, frame: JournalFrame,
                           rest: seq<u8>)
    requires Intact(crc, bytes, index, frame) && (first.Some? ==> frame.schemaVersion == first.value)
    requires IsExchanged(crc, bytes, other)
    ensures DecodeFrame(crc, other + rest, index, first) == Failure(ChecksumMismatch)
  {
    assert Unsealed(FrameSeal, 0);
    var s := other + rest;
    assert s[..24] == other[..24] && other[..24][..6] == other[..6] && s[..24][..6] == s[..6];
    assert s[7..24] == other[7..24];
    SameFields(bytes, s);
    FieldsLieInPlace(s);
    assert s[4..20] == other[4..20] && s[24..|other|] == other[24..];
  }

  /** A record that was written and whose bytes were exchanged is never read: inspection returns the frames
      before it and reports the checksum, whatever lies behind. */
  lemma ExchangeIsNoticed(crc: Checksum, records: seq<JournalRecord>, version: u16, k: nat, other: seq<u8>, rest: seq<u8>)
    requires Journaled(crc, records, version) && k < |records|
    requires IsExchanged(crc, Writer(crc, version)(k, records[k]).value, other)
    ensures Measured(Reader(crc))
    ensures var bytes := Concat(Encodings(Writer(crc, version), records)[..k]) + (other + rest);
            && Inspected(Reader(crc), bytes)
               == JournalInspection(FramesOf(records, version)[..k], Some(JournalCodecError(k, ChecksumMismatch)))
            && Decoded(Reader(crc), bytes) == Failure(JournalCodecError(k, ChecksumMismatch))
  {
    ReaderIsSound(crc);
    EncodingsRead(crc, records, version);
    var read, chunks, frames := Reader(crc), Encodings(Writer(crc, version), records), FramesOf(records, version);
    ChunksReadPrefix(read, chunks, frames, k);
    ChunksAreInTurn(read, chunks[..k], frames[..k]);
    ScanChunks(read, chunks[..k], frames[..k], other + rest);
    assert ChunkReads(read, chunks[k], k, FirstOf(frames[..k]), frames[k]);
    ReadMeansIntact(crc, chunks[k], k, FirstOf(frames[..k]), frames[k]);
    ExchangedIsRefused(crc, chunks[k], other, k, FirstOf(frames[..k]), frames[k], rest);
    assert frames[..k] + [] == frames[..k];
  }
}
