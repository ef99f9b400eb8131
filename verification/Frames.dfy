/** Journal files as runs of frames: strict decoding, inspection of damaged files, and why damage
    never reaches backwards. The format of one frame is a parameter here. */
module Frames {
  import opened Primitives
  import opened LittleEndian
  import opened Execution
  import opened RecordCodec

  const FRAME_HEADER_BYTES: nat := 24

  datatype JournalCodecError = JournalCodecError(frameIndex: nat, kind: JournalCodecErrorKind)

  datatype JournalFrame = JournalFrame(schemaVersion: u16, sequence: u64, record: JournalRecord)

  predicate TornKind(kind: JournalCodecErrorKind) {
    kind.TruncatedHeader? || kind.TruncatedPayload?
  }

  datatype JournalInspection = JournalInspection(frames: seq<JournalFrame>, issue: Option<JournalCodecError>)
  {
    predicate IsTornTail() {
      issue.Some? && TornKind(issue.value.kind)
    }
  }

  /** One frame from the front of the unread bytes, and the bytes behind it. The reader is told the
      index it expects and the version of the first frame of the file. */
  type FrameOutcome = Result<(JournalFrame, seq<u8>), JournalCodecErrorKind>
  type FrameReader = (seq<u8>, nat, Option<u16>) -> FrameOutcome

  function LengthField(s: seq<u8>): nat
    requires |s| >= FRAME_HEADER_BYTES
  {
    GetLE(s[16..20])
  }

  /** A frame takes exactly the bytes that its length field announces. */
  ghost predicate Measured(read: FrameReader) {
    forall s, index, first {:trigger read(s, index, first)} :: read(s, index, first).Success? ==>
      && FRAME_HEADER_BYTES <= |s|
      && LengthField(s) <= MAX_JOURNAL_PAYLOAD_BYTES
      && FRAME_HEADER_BYTES + LengthField(s) <= |s|
      && read(s, index, first).value.1 == s[FRAME_HEADER_BYTES + LengthField(s)..]
  }

  /** A frame that decodes does so whatever follows it. */
  ghost predicate Keeps(read: FrameReader, s: seq<u8>, index: nat, first: Option<u16>, t: seq<u8>) {
    read(s, index, first).Success? ==>
      var (frame, rest) := read(s, index, first).value;
      |rest| <= |s| && read(s[..|s| - |rest|] + t, index, first) == Success((frame, t))
  }

  ghost predicate Local(read: FrameReader) {
    forall x {:trigger Unsealed(TurnSeal, x)} :: Unsealed(TurnSeal, x) ==> forall s, index, first, t :: Keeps(read, s, index, first, t)
  }

  // ---------------------------------------------------------------- decoding and inspection

  /** What a reader can make of the bytes: every frame before the first problem, that problem, and
      the bytes from there on. */
  datatype Scanned = Scanned(frames: seq<JournalFrame>, issue: Option<JournalCodecError>, unread: seq<u8>)

  function FirstVersion(first: Option<u16>, frame: JournalFrame): Option<u16> {
    Some(if first.Some? then first.value else frame.schemaVersion)
  }

  ghost function Scan(read: FrameReader, s: seq<u8>, index: nat, first: Option<u16>): (r: Scanned)
    requires Measured(read)
    ensures |r.unread| <= |s|
    ensures r.issue.Some? ==> r.issue.value.frameIndex == index + |r.frames|
    decreases |s|
  {
    if s == [] then Scanned([], None, [])
    else match read(s, index, first)
      case Failure(kind) => Scanned([], Some(JournalCodecError(index, kind)), s)
      case Success((frame, rest)) =>
        var tail := Scan(read, rest, index + 1, FirstVersion(first, frame));
        Scanned([frame] + tail.frames, tail.issue, tail.unread)
  }

  ghost function Decoded(read: FrameReader, bytes: seq<u8>): Result<seq<JournalFrame>, JournalCodecError>
    requires Measured(read)
  {
    var r := Scan(read, bytes, 0, None);
    if r.issue.None? then Success(r.frames) else Failure(r.issue.value)
  }

  ghost function Inspected(read: FrameReader, bytes: seq<u8>): JournalInspection
    requires Measured(read)
  {
    var r := Scan(read, bytes, 0, None);
    JournalInspection(r.frames, r.issue)
  }

  method DecodeFrames(read: FrameReader, bytes: seq<u8>) returns (r: Result<seq<JournalFrame>, JournalCodecError>)
    requires Measured(read)
    ensures r == Decoded(read, bytes)
  {
    var frames: seq<JournalFrame> := [];
    var first: Option<u16> := None;
    var offset := 0;
    assert bytes[offset..] == bytes;
    while offset < |bytes|
      invariant 0 <= offset <= |bytes|
      invariant var tail := Scan(read, bytes[offset..], |frames|, first);
                Scan(read, bytes, 0, None) == Scanned(frames + tail.frames, tail.issue, tail.unread)
    {
      var s := bytes[offset..];
      var outcome := read(s, |frames|, first);
      if outcome.Failure? {
        return Failure(JournalCodecError(|frames|, outcome.error));
      }
      var (frame, rest) := outcome.value;
      assert rest == bytes[offset + (|s| - |rest|)..];
      first := FirstVersion(first, frame);
      assert forall more: seq<JournalFrame> :: frames + ([frame] + more) == (frames + [frame]) + more;
      frames := frames + [frame];
      offset := offset + (|s| - |rest|);
    }
    assert bytes[offset..] == [] && frames + [] == frames;
    return Success(frames);
  }

  ghost function Skipped(bytes: seq<u8>, offset: nat, frameCount: nat): (r: Option<nat>)
    requires offset <= |bytes|
    ensures r.Some? ==> offset <= r.value <= |bytes|
    decreases frameCount
  {
    if frameCount == 0 then Some(offset)
    else
      var s := bytes[offset..];
      if |s| < FRAME_HEADER_BYTES || LengthField(s) > MAX_JOURNAL_PAYLOAD_BYTES
         || FRAME_HEADER_BYTES + LengthField(s) > |s| then None
      else Skipped(bytes, offset + FRAME_HEADER_BYTES + LengthField(s), frameCount - 1)
  }

  /** The length of the first `frameCount` frames, judged by their length fields alone. */
  method CompletePrefixLength(bytes: seq<u8>, frameCount: nat) returns (r: Option<nat>)
    ensures r == Skipped(bytes, 0, frameCount)
  {
    var offset := 0;
    for done := 0 to frameCount
      invariant 0 <= offset <= |bytes|
      invariant Skipped(bytes, 0, frameCount) == Skipped(bytes, offset, frameCount - done)
    {
      var s := bytes[offset..];
      if |s| < FRAME_HEADER_BYTES {
        return None;
      }
      var length := LengthField(s);
      if length > MAX_JOURNAL_PAYLOAD_BYTES {
        return None;
      }
      offset := offset + FRAME_HEADER_BYTES + length;
      if offset > |bytes| {
        return None;
      }
    }
    return Some(offset);
  }

  /** Inspection returns exactly the frames in front of the damage: its second decoding always
      succeeds, so the fallback to no frames at all is never taken. */
  method InspectFrames(read: FrameReader, bytes: seq<u8>) returns (r: JournalInspection)
    requires Measured(read) && Local(read)
    ensures r == Inspected(read, bytes)
  {
    var decoded := DecodeFrames(read, bytes);
    if decoded.Success? {
      return JournalInspection(decoded.value, None);
    }
    var issue := decoded.error;
    var prefix := CompletePrefixLength(bytes, issue.frameIndex);
    DamageStaysBehind(read, bytes);
    var frames: seq<JournalFrame> := [];
    if prefix.Some? {
      var again := DecodeFrames(read, bytes[..prefix.value]);
      if again.Success? {
        frames := again.value;
      }
    }
    return JournalInspection(frames, Some(issue));
  }

  // ---------------------------------------------------------------- damage never reaches backwards

  lemma ScanCons(read: FrameReader, s: seq<u8>, index: nat, first: Option<u16>, frame: JournalFrame, rest: seq<u8>)
    requires Measured(read) && s != [] && read(s, index, first) == Success((frame, rest))
    ensures |rest| < |s|
    ensures var tail := Scan(read, rest, index + 1, FirstVersion(first, frame));
            Scan(read, s, index, first) == Scanned([frame] + tail.frames, tail.issue, tail.unread)
  {
  }

  lemma {:induction false} ReadPrefixAlone(read: FrameReader, s: seq<u8>, index: nat, first: Option<u16>)
    requires Measured(read) && Local(read)
    ensures var r := Scan(read, s, index, first);
            Scan(read, s[..|s| - |r.unread|], index, first) == Scanned(r.frames, None, [])
    decreases |s|
  {
    if s == [] || read(s, index, first).Failure? {
      assert Scan(read, s, index, first).unread == s && s[..|s| - |s|] == [];
    } else {
      var frame, rest := ReadPrefixStep(read, s, index, first);
      ReadPrefixAlone(read, rest, index + 1, FirstVersion(first, frame));
    }
  }

  lemma ReadPrefixStep(read: FrameReader, s: seq<u8>, index: nat, first: Option<u16>) returns (frame: JournalFrame, rest: seq<u8>)
    requires Measured(read) && Local(read) && s != [] && read(s, index, first).Success?
    ensures |rest| < |s|
    ensures var r, t := Scan(read, s, index, first), Scan(read, rest, index + 1, FirstVersion(first, frame));
            && r == Scanned([frame] + t.frames, t.issue, t.unread)
            && var kept := Scan(read, rest[..|rest| - |t.unread|], index + 1, FirstVersion(first, frame));
               Scan(read, s[..|s| - |t.unread|], index, first) == Scanned([frame] + kept.frames, kept.issue, kept.unread)
  {
    frame, rest := read(s, index, first).value.0, read(s, index, first).value.1;
    ScanCons(read, s, index, first, frame, rest);
    ReadPrefixCons(read, s, index, first, frame, rest, |Scan(read, rest, index + 1, FirstVersion(first, frame)).unread|);
  }

  lemma ReadPrefixCons(read: FrameReader, s: seq<u8>, index: nat, first: Option<u16>, frame: JournalFrame, rest: seq<u8>, unread: nat)
    requires Measured(read) && Local(read) && s != [] && read(s, index, first) == Success((frame, rest)) && unread <= |rest|
    ensures unread <= |s|
    ensures var tail := Scan(read, rest[..|rest| - unread], index + 1, FirstVersion(first, frame));
            Scan(read, s[..|s| - unread], index, first) == Scanned([frame] + tail.frames, tail.issue, tail.unread)
  {
    PrefixSplits(read, s, index, first, unread);
    ScanCons(read, s[..|s| - unread], index, first, frame, rest[..|rest| - unread]);
  }

  /** Cutting `dropped` bytes off the end, behind the first frame, leaves that frame as it was. */
  lemma PrefixSplits(read: FrameReader, s: seq<u8>, index: nat, first: Option<u16>, dropped: nat)
    requires Measured(read) && Local(read) && read(s, index, first).Success?
    requires dropped <= |read(s, index, first).value.1|
    ensures var (frame, rest) := read(s, index, first).value;
            && dropped <= |s| && s[..|s| - dropped] != []
            && read(s[..|s| - dropped], index, first) == Success((frame, rest[..|rest| - dropped]))
  {
    var (frame, rest) := read(s, index, first).value;
    var kept := rest[..|rest| - dropped];
    assert Keeps(read, s, index, first, kept) by { assert Unsealed(TurnSeal, 0); }
    assert s[..|s| - dropped] == s[..|s| - |rest|] + kept;
  }

  lemma {:induction false} LengthsAgree(read: FrameReader, bytes: seq<u8>, offset: nat, index: nat, first: Option<u16>)
    requires offset <= |bytes| && Measured(read)
    ensures var r := Scan(read, bytes[offset..], index, first);
            Skipped(bytes, offset, |r.frames|) == Some(|bytes| - |r.unread|)
    decreases |bytes| - offset
  {
    var s := bytes[offset..];
    if s != [] && read(s, index, first).Success? {
      var (frame, rest) := read(s, index, first).value;
      var next := offset + FRAME_HEADER_BYTES + LengthField(s);
      assert rest == bytes[next..];
      LengthsAgree(read, bytes, next, index + 1, FirstVersion(first, frame));
    }
  }

  /** On arbitrary bytes that fail to decode at frame k, the first k frames are measured correctly and
      decode on their own, to exactly the frames read before the failure. */
  lemma DamageStaysBehind(read: FrameReader, bytes: seq<u8>)
    requires Measured(read) && Local(read) && Decoded(read, bytes).Failure?
    ensures var k := Decoded(read, bytes).error.frameIndex;
            var prefix := Skipped(bytes, 0, k);
            && prefix.Some?
            && |Inspected(read, bytes).frames| == k
            && Decoded(read, bytes[..prefix.value]) == Success(Inspected(read, bytes).frames)
  {
    assert bytes[0..] == bytes;
    ReadPrefixAlone(read, bytes, 0, None);
    LengthsAgree(read, bytes, 0, 0, None);
  }

  // ---------------------------------------------------------------- torn files

  ghost function Concat(chunks: seq<seq<u8>>): seq<u8> {
    if chunks == [] then [] else Concat(chunks[..|chunks| - 1]) + chunks[|chunks| - 1]
  }

  ghost function FirstOf(frames: seq<JournalFrame>): Option<u16> {
    if frames == [] then None else Some(frames[0].schemaVersion)
  }

  /** The chunk is read as the frame, whatever follows it, where it stands as number `index`. */
  ghost predicate ChunkReads(read: FrameReader, chunk: seq<u8>, index: nat, first: Option<u16>, frame: JournalFrame) {
    chunk != [] && forall t {:trigger chunk + t} :: read(chunk + t, index, first) == Success((frame, t))
  }

  /** Cut anywhere inside, the chunk is recognised as torn. */
  ghost predicate ChunkTears(read: FrameReader, chunk: seq<u8>, index: nat, first: Option<u16>) {
    forall t: seq<u8> {:trigger read(t, index, first)} :: [] < t < chunk ==>
      read(t, index, first).Failure? && TornKind(read(t, index, first).error)
  }

  /** Each chunk is read as its frame where it stands. */
  ghost predicate ReadInTurn(read: FrameReader, chunks: seq<seq<u8>>, frames: seq<JournalFrame>) {
    && |chunks| == |frames|
    && forall x {:trigger Unsealed(TurnSeal, x)} :: Unsealed(TurnSeal, x) ==>
         forall i :: 0 <= i < |chunks| ==> ChunkReads(read, chunks[i], i, FirstOf(frames[..i]), frames[i])
  }

  ghost predicate ChunksRead(read: FrameReader, chunks: seq<seq<u8>>, frames: seq<JournalFrame>) {
    && |chunks| == |frames|
    && forall i :: 0 <= i < |chunks| ==>
         && ChunkReads(read, chunks[i], i, FirstOf(frames[..i]), frames[i])
         && ChunkTears(read, chunks[i], i, FirstOf(frames[..i]))
  }

  lemma ChunksReadPrefix(read: FrameReader, chunks: seq<seq<u8>>, frames: seq<JournalFrame>, k: nat)
    requires ChunksRead(read, chunks, frames) && k <= |chunks|
    ensures ChunksRead(read, chunks[..k], frames[..k])
  {
    forall i | 0 <= i < k ensures frames[..k][..i] == frames[..i] {
    }
  }

  lemma InTurnPrefix(read: FrameReader, chunks: seq<seq<u8>>, frames: seq<JournalFrame>, k: nat)
    requires ReadInTurn(read, chunks, frames) && k <= |chunks|
    ensures ReadInTurn(read, chunks[..k], frames[..k])
  {
    assert Unsealed(TurnSeal, 0);
    forall i | 0 <= i < k ensures frames[..k][..i] == frames[..i] {
    }
  }

  lemma OneMoreInTurn(read: FrameReader, chunks: seq<seq<u8>>, frames: seq<JournalFrame>, chunk: seq<u8>, frame: JournalFrame)
    requires ReadInTurn(read, chunks, frames) && ChunkReads(read, chunk, |frames|, FirstOf(frames), frame)
    ensures ReadInTurn(read, chunks + [chunk], frames + [frame]) && Concat(chunks + [chunk]) == Concat(chunks) + chunk
  {
    assert Unsealed(TurnSeal, 0);
    assert (chunks + [chunk])[..|chunks|] == chunks;
    forall i | 0 <= i <= |chunks|
      ensures ChunkReads(read, (chunks + [chunk])[i], i, FirstOf((frames + [frame])[..i]), (frames + [frame])[i])
    {
      assert (frames + [frame])[..i] == frames[..i];
      assert frames[..|frames|] == frames;
    }
  }

  /** The front of a readable file is a chunk. */
  lemma FrontIsChunk(read: FrameReader, s: seq<u8>, index: nat, first: Option<u16>) returns (chunk: seq<u8>)
    requires Measured(read) && Local(read) && read(s, index, first).Success?
    ensures var (frame, rest) := read(s, index, first).value;
            s == chunk + rest && ChunkReads(read, chunk, index, first, frame) && |rest| < |s|
  {
    var (frame, rest) := read(s, index, first).value;
    chunk := s[..|s| - |rest|];
    assert Unsealed(TurnSeal, 0);
    forall t: seq<u8> ensures read(chunk + t, index, first) == Success((frame, t)) {
      assert Keeps(read, s, index, first, t);
    }
  }

  /** One step of a scan: the chunk at the front is read... */
  lemma ScanStep(read: FrameReader, s: seq<u8>, done: seq<seq<u8>>, before: seq<JournalFrame>)
    returns (chunk: seq<u8>, frame: JournalFrame, rest: seq<u8>)
    requires Measured(read) && Local(read) && ReadInTurn(read, done, before)
    requires s != [] && read(s, |before|, FirstOf(before)).Success?
    ensures |rest| < |s| && Concat(done + [chunk]) + rest == Concat(done) + s
    ensures ReadInTurn(read, done + [chunk], before + [frame]) && read(s, |before|, FirstOf(before)) == Success((frame, rest))
  {
    frame, rest := read(s, |before|, FirstOf(before)).value.0, read(s, |before|, FirstOf(before)).value.1;
    chunk := FrontIsChunk(read, s, |before|, FirstOf(before));
    OneMoreInTurn(read, done, before, chunk, frame);
    assert Concat(done) + (chunk + rest) == (Concat(done) + chunk) + rest;
  }

  /** ...and the scan goes on behind it. */
  lemma ScanGoesOn(read: FrameReader, s: seq<u8>, before: seq<JournalFrame>, frame: JournalFrame, rest: seq<u8>)
    requires Measured(read) && s != [] && read(s, |before|, FirstOf(before)) == Success((frame, rest))
    ensures var t := Scan(read, rest, |before + [frame]|, FirstOf(before + [frame]));
            && Scan(read, s, |before|, FirstOf(before)) == Scanned([frame] + t.frames, t.issue, t.unread)
            && before + ([frame] + t.frames) == (before + [frame]) + t.frames
  {
    ScanCons(read, s, |before|, FirstOf(before), frame, rest);
    assert FirstOf(before + [frame]) == FirstVersion(FirstOf(before), frame);
  }

  /** What a scan has read are chunks that are read in turn, and the rest is where the reader fails. */
  lemma {:induction false} ScanSplits(read: FrameReader, s: seq<u8>, done: seq<seq<u8>>, before: seq<JournalFrame>)
    returns (chunks: seq<seq<u8>>)
    requires Measured(read) && Local(read) && ReadInTurn(read, done, before)
    ensures var t := Scan(read, s, |before|, FirstOf(before));
            && ReadInTurn(read, chunks, before + t.frames) && Concat(done) + s == Concat(chunks) + t.unread
            && (t.issue.None? ==> t.unread == [])
            && (t.issue.Some? ==>
                  && t.unread != []
                  && read(t.unread, |before + t.frames|, FirstOf(before + t.frames)) == Failure(t.issue.value.kind))
    decreases |s|
  {
    if s == [] || read(s, |before|, FirstOf(before)).Failure? {
      chunks := done;
      assert before + [] == before;
    } else {
      var chunk, frame, rest := ScanStep(read, s, done, before);
      ScanGoesOn(read, s, before, frame, rest);
      chunks := ScanSplits(read, rest, done + [chunk], before + [frame]);
    }
  }

  /** Whole chunks are read in order, and then whatever follows them. */
  lemma {:induction false} ScanChunks(read: FrameReader, chunks: seq<seq<u8>>, frames: seq<JournalFrame>, tail: seq<u8>)
    requires Measured(read) && ReadInTurn(read, chunks, frames)
    ensures var t := Scan(read, tail, |chunks|, FirstOf(frames));
            Scan(read, Concat(chunks) + tail, 0, None) == Scanned(frames + t.frames, t.issue, t.unread)
    decreases |chunks|
  {
    if chunks == [] {
      assert Concat(chunks) + tail == tail;
    } else {
      var n := |chunks| - 1;
      var front, chunk, frame := chunks[..n], chunks[n], frames[n];
      InTurnPrefix(read, chunks, frames, n);
      assert Concat(chunks) + tail == Concat(front) + (chunk + tail);
      ScanChunks(read, front, frames[..n], chunk + tail);
      assert ChunkReads(read, chunk, n, FirstOf(frames[..n]), frame) by { assert Unsealed(TurnSeal, 0); }
      assert chunk + tail != [];
      var t := Scan(read, tail, n + 1, FirstOf(frames));
      assert frames[..n] + ([frame] + t.frames) == frames + t.frames;
    }
  }

  lemma ChunksAreInTurn(read: FrameReader, chunks: seq<seq<u8>>, frames: seq<JournalFrame>)
    requires ChunksRead(read, chunks, frames)
    ensures ReadInTurn(read, chunks, frames)
  {
  }

  /** Whole chunks followed by a strict prefix of another: the inspection returns exactly the whole
      frames, and reports a torn tail if and only if there is one. */
  lemma TornTailIsExact(read: FrameReader, chunks: seq<seq<u8>>, frames: seq<JournalFrame>, next: seq<u8>, torn: seq<u8>)
    requires Measured(read) && ChunksRead(read, chunks, frames)
    requires torn != [] ==> torn < next && ChunkTears(read, next, |chunks|, FirstOf(frames))
    ensures var r := Inspected(read, Concat(chunks) + torn);
            && r.frames == frames
            && (r.issue.None? <==> torn == [])
            && (torn != [] ==> r.IsTornTail() && r.issue.value.frameIndex == |chunks|)
  {
    ChunksAreInTurn(read, chunks, frames);
    ScanChunks(read, chunks, frames, torn);
    assert frames + [] == frames;
  }

  /** Any cut through a run of chunks leaves whole chunks and a strict prefix of the next one. */
  lemma {:induction false} CutChunks(chunks: seq<seq<u8>>, torn: seq<u8>, cut: nat) returns (k: nat, t: seq<u8>)
    requires cut <= |Concat(chunks)| + |torn| && [] !in chunks
    ensures k <= |chunks| && (Concat(chunks) + torn)[..cut] == Concat(chunks[..k]) + t
    ensures if k < |chunks| then t < chunks[k] else t <= torn
    ensures forall j :: 0 <= j <= |chunks| && |Concat(chunks[..j])| <= cut ==> j <= k
    decreases |chunks|
  {
    var bytes := Concat(chunks) + torn;
    if |Concat(chunks)| <= cut {
      k, t := |chunks|, torn[..cut - |Concat(chunks)|];
      assert chunks[..k] == chunks;
      assert bytes[..cut] == Concat(chunks) + t;
    } else {
      var n := |chunks| - 1;
      k, t := CutChunks(chunks[..n], chunks[n], cut);
      assert bytes[..cut] == (Concat(chunks[..n]) + chunks[n])[..cut];
      assert chunks[..n][..k] == chunks[..k];
      if k == n {
        assert |(Concat(chunks[..n]) + chunks[n])[..cut]| == cut;
        assert t != chunks[n];
      } else {
        assert chunks[..n][k] == chunks[k];
      }
      assert chunks[..|chunks|] == chunks;
      forall j | 0 <= j <= n && |Concat(chunks[..j])| <= cut ensures j <= k {
        assert chunks[..n][..j] == chunks[..j];
      }
    }
  }

  // ---------------------------------------------------------------- written files

  /** The frame of a record at its place in the file. */
  type FrameWriter = (nat, JournalRecord) -> Encoded

  ghost predicate FramesEncode(write: FrameWriter, records: seq<JournalRecord>) {
    forall i :: 0 <= i < |records| ==> write(i, records[i]).Success?
  }

  ghost function Encodings(write: FrameWriter, records: seq<JournalRecord>): (r: seq<seq<u8>>)
    requires FramesEncode(write, records)
    ensures |r| == |records| && forall i :: 0 <= i < |r| ==> r[i] == write(i, records[i]).value
  {
    seq(|records|, i requires 0 <= i < |records| => write(i, records[i]).value)
  }

  /** The bytes of a journal that holds exactly these records. */
  ghost function FileOf(write: FrameWriter, records: seq<JournalRecord>): seq<u8>
    requires FramesEncode(write, records)
  {
    Concat(Encodings(write, records))
  }

  lemma FileAppend(write: FrameWriter, records: seq<JournalRecord>, record: JournalRecord)
    requires FramesEncode(write, records) && write(|records|, record).Success?
    ensures FramesEncode(write, records + [record])
    ensures Encodings(write, records + [record]) == Encodings(write, records) + [write(|records|, record).value]
    ensures FileOf(write, records + [record]) == FileOf(write, records) + write(|records|, record).value
  {
    var frame := write(|records|, record).value;
    var before, after := Encodings(write, records), Encodings(write, records + [record]);
    assert after == before + [frame];
    assert after[..|records|] == before;
  }

  lemma EncodingsPrefix(write: FrameWriter, records: seq<JournalRecord>, k: nat)
    requires FramesEncode(write, records) && k <= |records|
    ensures FramesEncode(write, records[..k]) && Encodings(write, records[..k]) == Encodings(write, records)[..k]
  {
  }

  /** Writes frame after frame, up to the first that cannot be encoded. */
  method EncodeFrames(write: FrameWriter, records: seq<JournalRecord>) returns (r: Result<seq<u8>, JournalCodecError>)
    ensures match r
            case Success(bytes) => FramesEncode(write, records) && bytes == FileOf(write, records)
            case Failure(error) =>
              var k := error.frameIndex;
              k < |records| && FramesEncode(write, records[..k]) && write(k, records[k]) == Failure(error.kind)
  {
    var encoded: seq<u8> := [];
    for index := 0 to |records|
      invariant FramesEncode(write, records[..index])
      invariant encoded == FileOf(write, records[..index])
    {
      var frame := write(index, records[index]);
      if frame.Failure? {
        return Failure(JournalCodecError(index, frame.error));
      }
      assert records[..index + 1] == records[..index] + [records[index]];
      FileAppend(write, records[..index], records[index]);
      encoded := encoded + frame.value;
    }
    assert records[..|records|] == records;
    return Success(encoded);
  }
}
