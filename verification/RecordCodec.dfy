/** Journal payloads: how one record becomes bytes and how a cursor reads it back, for schema versions 1 to 6. */
module RecordCodec {
  import opened Primitives
  import opened LittleEndian
  import opened Execution

  const MIN_SUPPORTED_JOURNAL_SCHEMA_VERSION: u16 := 1
  const JOURNAL_SCHEMA_VERSION: u16 := 6
  const MIN_RESUMABLE_JOURNAL_SCHEMA_VERSION: u16 := 5
  const MAX_JOURNAL_PAYLOAD_BYTES: nat := 16 * 1024 * 1024
  const NATIVE_ENCODING_UNIX_BYTES: u8 := 1

  datatype JournalCodecErrorKind =
    | TruncatedHeader
    | TruncatedPayload
    | InvalidMagic
    | UnsupportedVersion(version: u16)
    | MixedVersion(expectedVersion: u16, actualVersion: u16)
    | InvalidFlags(flags: u8)
    | FrameTooLarge(payloadLength: u32)
    | ChecksumMismatch
    | UnknownRecordKind(kind: u8)
    | InvalidPayload
    | InvalidNativeNameEncoding
    | TooManyEntries(entryCount: u32)
    | IntegerOutOfRange
    | SequenceMismatch(expected: u64, actual: u64)

  type Encoded = Result<seq<u8>, JournalCodecErrorKind>
  // A parsed value and the bytes the cursor has not read yet.
  type Parsed<T> = Result<(T, seq<u8>), JournalCodecErrorKind>

  predicate SupportedVersion(version: u16) {
    MIN_SUPPORTED_JOURNAL_SCHEMA_VERSION <= version <= JOURNAL_SCHEMA_VERSION
  }

  // ---------------------------------------------------------------- encoding

  function NameBytes(name: Name): seq<u8> {
    [NATIVE_ENCODING_UNIX_BYTES] + (PutLE(|name|, 4) + name)
  }

  function IdentityBytes(identity: ExecutionIdentity): seq<u8> {
    PutLE(identity.volumeSerialNumber, 8) + identity.fileId
  }

  function SignalBytes(signal: Option<EntryIdentitySignal>): seq<u8> {
    match signal
    case Some(s) => [1] + (PutLE(s.primary, 8) + PutLE(s.secondary, 8))
    case None => [0]
  }

  function ModifiedBytes(modified: Option<u128>): seq<u8> {
    match modified
    case Some(nanos) => [1] + PutLE(nanos, 16)
    case None => [0]
  }

  function KindByte(kind: EntryKind): u8 {
    match kind
    case File => 1
    case Symlink => 2
    case Directory => 3
  }

  function FingerprintBytes(fingerprint: SourceFingerprint): seq<u8> {
    [KindByte(fingerprint.entryKind)]
    + (SignalBytes(fingerprint.identitySignal)
    + (PutLE(fingerprint.byteLen, 8)
    + ModifiedBytes(fingerprint.modifiedNanos)))
  }

  function ParentBytes(parent: Option<NativePath>, version: u16): seq<u8> {
    if version < 2 then [] else match parent
    case Some(path) => [1] + NameBytes(path)
    case None => [0]
  }

  function UndoBytes(planId: Option<u64>, version: u16): seq<u8> {
    if version < 3 then [] else match planId
    case Some(id) => [1] + PutLE(id, 8)
    case None => [0]
  }

  function ParentIdentityBytes(identity: Option<ExecutionIdentity>, version: u16): seq<u8> {
    if version < 5 then [] else match identity
    case Some(id) => [1] + IdentityBytes(id)
    case None => [0]
  }

  function NamesBytes(names: JournalNameGraph): seq<u8> {
    NameBytes(names.originalName) + (NameBytes(names.temporaryName) + NameBytes(names.finalName))
  }

  function EntryTailBytes(entry: JournalEntry, version: u16): seq<u8> {
    IdentityBytes(entry.executionIdentity)
    + (ParentBytes(entry.nativeParent, version)
    + (UndoBytes(entry.undoOfPlanId, version)
    + ParentIdentityBytes(entry.parentExecutionIdentity, version)))
  }

  function EntryBytes(entry: JournalEntry, version: u16): seq<u8> {
    PutLE(entry.sourceId, 8)
    + (PutLE(entry.parentId, 8)
    + (NamesBytes(entry.names)
    + (FingerprintBytes(entry.admissionFingerprint)
    + EntryTailBytes(entry, version))))
  }

  predicate NamesFit(entry: JournalEntry, version: u16) {
    && |entry.names.originalName| <= U32_MAX
    && |entry.names.temporaryName| <= U32_MAX
    && |entry.names.finalName| <= U32_MAX
    && (version >= 2 && entry.nativeParent.Some? ==> |entry.nativeParent.value| <= U32_MAX)
  }

  function EncodeEntry(entry: JournalEntry, version: u16): Encoded {
    if !NamesFit(entry, version) then Failure(IntegerOutOfRange)
    else if version < 3 && entry.undoOfPlanId.Some? then Failure(InvalidPayload)
    else Success(EntryBytes(entry, version))
  }

  function EncodeEntries(entries: seq<JournalEntry>, version: u16): Encoded {
    if entries == [] then Success([])
    else
      var first :- EncodeEntry(entries[0], version);
      var rest :- EncodeEntries(entries[1..], version);
      Success(first + rest)
  }

  function CauseBytes(cause: RollbackCause): seq<u8> {
    match cause
    case Cancelled => [1]
    case ForwardStepFailed(step) => [2] + PutLE(step, 8)
    case RecoveryRequested => [3]
  }

  function RecordKind(record: JournalRecord): u8 {
    match record
    case TransactionStarted(_, _, _, _) => 1
    case ForwardStepPrepared(_) => 2
    case ForwardBatchPrepared(_, _) => 13
    case ForwardStepCompleted(_, _) => 3
    case ForwardStepNotApplied(_) => 10
    case RollbackStarted(_) => 4
    case RollbackStepPrepared(_) => 5
    case RollbackStepCompleted(_, _) => 6
    case RollbackStepNotApplied(_) => 11
    case RollbackStepFailed(_) => 7
    case RollbackRecoveryStarted(_) => 12
    case TransactionCompleted => 8
    case TransactionRolledBack => 9
  }

  function EncodeRecord(record: JournalRecord, version: u16): Encoded {
    match record
    case TransactionStarted(planId, generation, stepCount, entries) =>
      if |entries| > U32_MAX then Failure(TooManyEntries(U32_MAX))
      else if |entries| > MAX_ADMITTED_SOURCES then Failure(TooManyEntries(|entries|))
      else
        var encoded :- EncodeEntries(entries, version);
        Success(PutLE(planId, 8) + (PutLE(generation, 8) + (PutLE(stepCount, 8) + (PutLE(|entries|, 4) + encoded))))
    case ForwardStepPrepared(step) => Success(PutLE(step, 8))
    case ForwardBatchPrepared(first, count) =>
      if version < 6 then Failure(InvalidPayload) else Success(PutLE(first, 8) + PutLE(count, 8))
    case ForwardStepCompleted(step, identity) => Success(PutLE(step, 8) + IdentityBytes(identity))
    case ForwardStepNotApplied(step) => Success(PutLE(step, 8))
    case RollbackStarted(cause) => Success(CauseBytes(cause))
    case RollbackStepPrepared(step) => Success(PutLE(step, 8))
    case RollbackStepCompleted(step, identity) => Success(PutLE(step, 8) + IdentityBytes(identity))
    case RollbackStepNotApplied(step) => Success(PutLE(step, 8))
    case RollbackStepFailed(step) => Success(PutLE(step, 8))
    case RollbackRecoveryStarted(step) => Success(PutLE(step, 8))
    case TransactionCompleted => Success([])
    case TransactionRolledBack => Success([])
  }

  // ---------------------------------------------------------------- decoding

  function Take(s: seq<u8>, length: nat): (r: Parsed<seq<u8>>)
    ensures r.Success? ==> |r.value.0| == length
  {
    if length > |s| then Failure(InvalidPayload) else Success((s[..length], s[length..]))
  }

  function ReadU8(s: seq<u8>): Parsed<u8> {
    var (bytes, rest) :- Take(s, 1);
    Success((bytes[0], rest))
  }

  function ReadU32(s: seq<u8>): Parsed<u32> {
    Widths();
    var (bytes, rest) :- Take(s, 4);
    GetBound(bytes, 4);
    Success((GetLE(bytes), rest))
  }

  function ReadU64(s: seq<u8>): Parsed<u64> {
    Widths();
    var (bytes, rest) :- Take(s, 8);
    GetBound(bytes, 8);
    Success((GetLE(bytes), rest))
  }

  function ReadU128(s: seq<u8>): Parsed<u128> {
    Widths();
    var (bytes, rest) :- Take(s, 16);
    GetBound(bytes, 16);
    Success((GetLE(bytes), rest))
  }

  function DecodeName(s: seq<u8>): Parsed<Name> {
    var (tag, r1) :- ReadU8(s);
    if tag != NATIVE_ENCODING_UNIX_BYTES then Failure(InvalidNativeNameEncoding)
    else
      var (length, r2) :- ReadU32(r1);
      Take(r2, length)
  }

  function DecodeIdentity(s: seq<u8>): Parsed<ExecutionIdentity> {
    var (volume, r1) :- ReadU64(s);
    var (fileId, r2) :- Take(r1, 16);
    Success((ExecutionIdentity(volume, fileId), r2))
  }

  function DecodeSignal(s: seq<u8>): Parsed<Option<EntryIdentitySignal>> {
    var (tag, r1) :- ReadU8(s);
    if tag == 0 then Success((None, r1))
    else if tag == 1 then
      var (primary, r2) :- ReadU64(r1);
      var (secondary, r3) :- ReadU64(r2);
      Success((Some(EntryIdentitySignal(primary, secondary)), r3))
    else Failure(InvalidPayload)
  }

  function DecodeModified(s: seq<u8>): Parsed<Option<u128>> {
    var (tag, r1) :- ReadU8(s);
    if tag == 0 then Success((None, r1))
    else if tag == 1 then
      var (nanos, r2) :- ReadU128(r1);
      Success((Some(nanos), r2))
    else Failure(InvalidPayload)
  }

  function DecodeKind(s: seq<u8>, version: u16): Parsed<EntryKind> {
    var (tag, r1) :- ReadU8(s);
    if tag == 1 then Success((File, r1))
    else if tag == 2 then Success((Symlink, r1))
    else if tag == 3 && version >= 4 then Success((Directory, r1))
    else Failure(InvalidPayload)
  }

  function DecodeFingerprint(s: seq<u8>, version: u16): Parsed<SourceFingerprint> {
    var (kind, r1) :- DecodeKind(s, version);
    var (signal, r2) :- DecodeSignal(r1);
    var (byteLen, r3) :- ReadU64(r2);
    var (modified, r4) :- DecodeModified(r3);
    Success((SourceFingerprint(kind, signal, byteLen, modified), r4))
  }

  function DecodeParent(s: seq<u8>, version: u16): Parsed<Option<NativePath>> {
    if version < 2 then Success((None, s))
    else
      var (tag, r1) :- ReadU8(s);
      if tag == 0 then Success((None, r1))
      else if tag == 1 then
        var (path, r2) :- DecodeName(r1);
        Success((Some(path), r2))
      else Failure(InvalidPayload)
  }

  function DecodeUndo(s: seq<u8>, version: u16): Parsed<Option<u64>> {
    if version < 3 then Success((None, s))
    else
      var (tag, r1) :- ReadU8(s);
      if tag == 0 then Success((None, r1))
      else if tag == 1 then
        var (planId, r2) :- ReadU64(r1);
        Success((Some(planId), r2))
      else Failure(InvalidPayload)
  }

  function DecodeParentIdentity(s: seq<u8>, version: u16): Parsed<Option<ExecutionIdentity>> {
    if version < 5 then Success((None, s))
    else
      var (tag, r1) :- ReadU8(s);
      if tag == 0 then Success((None, r1))
      else if tag == 1 then
        var (identity, r2) :- DecodeIdentity(r1);
        Success((Some(identity), r2))
      else Failure(InvalidPayload)
  }

  function DecodeNames(s: seq<u8>): Parsed<JournalNameGraph> {
    var (original, r1) :- DecodeName(s);
    var (temporary, r2) :- DecodeName(r1);
    var (final, r3) :- DecodeName(r2);
    Success((JournalNameGraph(original, temporary, final), r3))
  }

  datatype EntryTail = EntryTail(
    identity: ExecutionIdentity, parent: Option<NativePath>, undo: Option<u64>, parentIdentity: Option<ExecutionIdentity>)

  function DecodeEntryTail(s: seq<u8>, version: u16): Parsed<EntryTail> {
    var (identity, r1) :- DecodeIdentity(s);
    var (parent, r2) :- DecodeParent(r1, version);
    var (undo, r3) :- DecodeUndo(r2, version);
    var (parentIdentity, r4) :- DecodeParentIdentity(r3, version);
    Success((EntryTail(identity, parent, undo, parentIdentity), r4))
  }

  function DecodeEntry(s: seq<u8>, version: u16): Parsed<JournalEntry> {
    var (sourceId, r1) :- ReadU64(s);
    var (parentId, r2) :- ReadU64(r1);
    var (names, r3) :- DecodeNames(r2);
    var (fingerprint, r4) :- DecodeFingerprint(r3, version);
    var (tail, r5) :- DecodeEntryTail(r4, version);
    // A parent identity without a path is dropped by the constructor that is chosen.
    var parentIdentity := if tail.parent.Some? then tail.parentIdentity else None;
    Success((JournalEntry(sourceId, parentId, names, fingerprint, tail.identity, parentIdentity, tail.parent, tail.undo), r5))
  }

  function DecodeEntries(s: seq<u8>, count: nat, version: u16): (r: Parsed<seq<JournalEntry>>)
    ensures r.Success? ==> |r.value.0| == count
    decreases count
  {
    if count == 0 then Success(([], s))
    else
      var (first, r1) :- DecodeEntry(s, version);
      var (others, r2) :- DecodeEntries(r1, count - 1, version);
      Success(([first] + others, r2))
  }

  function DecodeCause(s: seq<u8>): Parsed<RollbackCause> {
    var (tag, r1) :- ReadU8(s);
    if tag == 1 then Success((Cancelled, r1))
    else if tag == 2 then
      var (step, r2) :- ReadU64(r1);
      Success((ForwardStepFailed(step), r2))
    else if tag == 3 then Success((RecoveryRequested, r1))
    else Failure(InvalidPayload)
  }

  function DecodeHeader(s: seq<u8>, version: u16): Parsed<JournalRecord> {
    var (planId, r1) :- ReadU64(s);
    var (generation, r2) :- ReadU64(r1);
    var (stepCount, r3) :- ReadU64(r2);
    var (count, r4) :- ReadU32(r3);
    if count > MAX_ADMITTED_SOURCES then Failure(TooManyEntries(count))
    else
      var (entries, r5) :- DecodeEntries(r4, count, version);
      Success((TransactionStarted(planId, generation, stepCount, entries), r5))
  }

  function DecodeStep(s: seq<u8>, wrap: u64 -> JournalRecord): Parsed<JournalRecord> {
    var (step, r1) :- ReadU64(s);
    Success((wrap(step), r1))
  }

  function DecodeCompletion(s: seq<u8>, wrap: (u64, ExecutionIdentity) -> JournalRecord): Parsed<JournalRecord> {
    var (step, r1) :- ReadU64(s);
    var (identity, r2) :- DecodeIdentity(r1);
    Success((wrap(step, identity), r2))
  }

  function DecodeBatch(s: seq<u8>): Parsed<JournalRecord> {
    var (first, r1) :- ReadU64(s);
    var (count, r2) :- ReadU64(r1);
    Success((ForwardBatchPrepared(first, count), r2))
  }

  function DecodeBody(kind: u8, s: seq<u8>, version: u16): Parsed<JournalRecord> {
    if kind == 1 then DecodeHeader(s, version)
    else if kind == 2 then DecodeStep(s, (i: u64) => ForwardStepPrepared(i))
    else if kind == 13 && version >= 6 then DecodeBatch(s)
    else if kind == 3 then DecodeCompletion(s, (i: u64, id: ExecutionIdentity) => ForwardStepCompleted(i, id))
    else if kind == 10 then DecodeStep(s, (i: u64) => ForwardStepNotApplied(i))
    else if kind == 4 then
      var (cause, r1) :- DecodeCause(s);
      Success((RollbackStarted(cause), r1))
    else if kind == 5 then DecodeStep(s, (i: u64) => RollbackStepPrepared(i))
    else if kind == 6 then DecodeCompletion(s, (i: u64, id: ExecutionIdentity) => RollbackStepCompleted(i, id))
    else if kind == 11 then DecodeStep(s, (i: u64) => RollbackStepNotApplied(i))
    else if kind == 7 then DecodeStep(s, (i: u64) => RollbackStepFailed(i))
    else if kind == 12 then DecodeStep(s, (i: u64) => RollbackRecoveryStarted(i))
    else if kind == 8 then Success((TransactionCompleted, s))
    else if kind == 9 then Success((TransactionRolledBack, s))
    else Failure(UnknownRecordKind(kind))
  }

  function DecodeRecord(kind: u8, payload: seq<u8>, version: u16): Result<JournalRecord, JournalCodecErrorKind> {
    var (record, rest) :- DecodeBody(kind, payload, version);
    if rest == [] then Success(record) else Failure(InvalidPayload)
  }

  // ---------------------------------------------------------------- what a version keeps

  /** The record with exactly the fields that the schema version lacks erased. */
  function EraseEntry(entry: JournalEntry, version: u16): JournalEntry {
    entry.(nativeParent := if version >= 2 then entry.nativeParent else None,
           undoOfPlanId := if version >= 3 then entry.undoOfPlanId else None,
           parentExecutionIdentity := if version >= 5 then entry.parentExecutionIdentity else None)
  }

  function EraseEntries(entries: seq<JournalEntry>, version: u16): (r: seq<JournalEntry>)
    ensures |r| == |entries| && forall i :: 0 <= i < |r| ==> r[i] == EraseEntry(entries[i], version)
  {
    seq(|entries|, i requires 0 <= i < |entries| => EraseEntry(entries[i], version))
  }

  function Erase(record: JournalRecord, version: u16): JournalRecord {
    if record.TransactionStarted? then record.(entries := EraseEntries(record.entries, version)) else record
  }

  /** Without a path the reader drops what identifies the directory. */
  function PlacedEntry(entry: JournalEntry): JournalEntry {
    if entry.nativeParent.None? then entry.(parentExecutionIdentity := None) else entry
  }

  function PlacedEntries(entries: seq<JournalEntry>): (r: seq<JournalEntry>)
    ensures |r| == |entries| && forall i :: 0 <= i < |r| ==> r[i] == PlacedEntry(entries[i])
  {
    seq(|entries|, i requires 0 <= i < |entries| => PlacedEntry(entries[i]))
  }

  function Placed(record: JournalRecord): JournalRecord {
    if record.TransactionStarted? then record.(entries := PlacedEntries(record.entries)) else record
  }

  lemma ConstructibleIsPlaced(record: JournalRecord)
    requires Constructible(record)
    ensures Placed(record) == record
  {
    if record.TransactionStarted? {
      forall i | 0 <= i < |record.entries| ensures PlacedEntry(record.entries[i]) == record.entries[i] {
        assert record.entries[i] in record.entries;
      }
      assert PlacedEntries(record.entries) == record.entries;
    }
  }

  /** Directories are readable from version 4 on, although every version writes them. */
  predicate KindReadable(entry: JournalEntry, version: u16) {
    version >= 4 || entry.admissionFingerprint.entryKind != Directory
  }

  predicate EntriesReadable(entries: seq<JournalEntry>, version: u16) {
    forall i :: 0 <= i < |entries| ==> KindReadable(entries[i], version)
  }

  predicate Constructible(record: JournalRecord) {
    record.TransactionStarted? ==> forall e :: e in record.entries ==> e.Constructible()
  }

  predicate Readable(record: JournalRecord, version: u16) {
    record.TransactionStarted? ==> EntriesReadable(record.entries, version)
  }

  // ---------------------------------------------------------------- round trip

  lemma Takes(bytes: seq<u8>, rest: seq<u8>)
    ensures Take(bytes + rest, |bytes|) == Success((bytes, rest))
  {
    assert (bytes + rest)[..|bytes|] == bytes;
    assert (bytes + rest)[|bytes|..] == rest;
  }

  lemma ReadsU8(v: u8, rest: seq<u8>)
    ensures ReadU8([v] + rest) == Success((v, rest))
  {
    Takes([v], rest);
  }

  lemma ReadsU32(v: u32, rest: seq<u8>)
    ensures ReadU32(PutLE(v, 4) + rest) == Success((v, rest))
  {
    Widths();
    GetPut(v, 4);
    Takes(PutLE(v, 4), rest);
  }

  lemma ReadsU64(v: u64, rest: seq<u8>)
    ensures ReadU64(PutLE(v, 8) + rest) == Success((v, rest))
  {
    Widths();
    GetPut(v, 8);
    Takes(PutLE(v, 8), rest);
  }

  lemma ReadsU128(v: u128, rest: seq<u8>)
    ensures ReadU128(PutLE(v, 16) + rest) == Success((v, rest))
  {
    Widths();
    GetPut(v, 16);
    Takes(PutLE(v, 16), rest);
  }

  lemma Assoc(a: seq<u8>, b: seq<u8>, c: seq<u8>)
    ensures (a + b) + c == a + (b + c)
  {
  }

  lemma ReadsName(name: Name, rest: seq<u8>)
    requires |name| <= U32_MAX
    ensures DecodeName(NameBytes(name) + rest) == Success((name, rest))
  {
    var length := PutLE(|name|, 4);
    Assoc([NATIVE_ENCODING_UNIX_BYTES], length + name, rest);
    Assoc(length, name, rest);
    ReadsU8(NATIVE_ENCODING_UNIX_BYTES, length + (name + rest));
    ReadsU32(|name|, name + rest);
    Takes(name, rest);
  }

  lemma ReadsIdentity(identity: ExecutionIdentity, rest: seq<u8>)
    ensures DecodeIdentity(IdentityBytes(identity) + rest) == Success((identity, rest))
  {
    Assoc(PutLE(identity.volumeSerialNumber, 8), identity.fileId, rest);
    ReadsU64(identity.volumeSerialNumber, identity.fileId + rest);
    Takes(identity.fileId, rest);
  }

  lemma ReadsSignal(signal: Option<EntryIdentitySignal>, rest: seq<u8>)
    ensures DecodeSignal(SignalBytes(signal) + rest) == Success((signal, rest))
  {
    match signal
    case None => ReadsU8(0, rest);
    case Some(s) =>
      var first, second := PutLE(s.primary, 8), PutLE(s.secondary, 8);
      Assoc([1], first + second, rest);
      Assoc(first, second, rest);
      ReadsU8(1, first + (second + rest));
      ReadsU64(s.primary, second + rest);
      ReadsU64(s.secondary, rest);
  }

  lemma ReadsModified(modified: Option<u128>, rest: seq<u8>)
    ensures DecodeModified(ModifiedBytes(modified) + rest) == Success((modified, rest))
  {
    match modified
    case None => ReadsU8(0, rest);
    case Some(nanos) =>
      Assoc([1], PutLE(nanos, 16), rest);
      ReadsU8(1, PutLE(nanos, 16) + rest);
      ReadsU128(nanos, rest);
  }

  lemma ReadsKind(kind: EntryKind, version: u16, rest: seq<u8>)
    ensures DecodeKind([KindByte(kind)] + rest, version) ==
            if version >= 4 || kind != Directory then Success((kind, rest)) else Failure(InvalidPayload)
  {
    ReadsU8(KindByte(kind), rest);
  }

  lemma ReadsFingerprint(f: SourceFingerprint, version: u16, rest: seq<u8>)
    ensures DecodeFingerprint(FingerprintBytes(f) + rest, version) ==
            if version >= 4 || f.entryKind != Directory then Success((f, rest)) else Failure(InvalidPayload)
  {
    var kind, signal, length, modified :=
      [KindByte(f.entryKind)], SignalBytes(f.identitySignal), PutLE(f.byteLen, 8), ModifiedBytes(f.modifiedNanos);
    var r3 := modified + rest;
    var r2 := length + r3;
    var r1 := signal + r2;
    assert FingerprintBytes(f) + rest == kind + r1 by {
      Assoc(kind, signal + (length + modified), rest);
      Assoc(signal, length + modified, rest);
      Assoc(length, modified, rest);
    }
    ReadsKind(f.entryKind, version, r1);
    ReadsSignal(f.identitySignal, r2);
    ReadsU64(f.byteLen, r3);
    ReadsModified(f.modifiedNanos, rest);
  }

  lemma ReadsParent(parent: Option<NativePath>, version: u16, rest: seq<u8>)
    requires version >= 2 && parent.Some? ==> |parent.value| <= U32_MAX
    ensures DecodeParent(ParentBytes(parent, version) + rest, version) ==
            Success((if version >= 2 then parent else None, rest))
  {
    if version < 2 {
      assert [] + rest == rest;
    } else {
      match parent
      case None => ReadsU8(0, rest);
      case Some(path) =>
        Assoc([1], NameBytes(path), rest);
        ReadsU8(1, NameBytes(path) + rest);
        ReadsName(path, rest);
    }
  }

  lemma ReadsUndo(planId: Option<u64>, version: u16, rest: seq<u8>)
    ensures DecodeUndo(UndoBytes(planId, version) + rest, version) ==
            Success((if version >= 3 then planId else None, rest))
  {
    if version < 3 {
      assert [] + rest == rest;
    } else {
      match planId
      case None => ReadsU8(0, rest);
      case Some(id) =>
        Assoc([1], PutLE(id, 8), rest);
        ReadsU8(1, PutLE(id, 8) + rest);
        ReadsU64(id, rest);
    }
  }

  lemma ReadsParentIdentity(identity: Option<ExecutionIdentity>, version: u16, rest: seq<u8>)
    ensures DecodeParentIdentity(ParentIdentityBytes(identity, version) + rest, version) ==
            Success((if version >= 5 then identity else None, rest))
  {
    if version < 5 {
      assert [] + rest == rest;
    } else {
      match identity
      case None => ReadsU8(0, rest);
      case Some(id) =>
        Assoc([1], IdentityBytes(id), rest);
        ReadsU8(1, IdentityBytes(id) + rest);
        ReadsIdentity(id, rest);
    }
  }

  lemma ReadsNames(names: JournalNameGraph, rest: seq<u8>)
    requires |names.originalName| <= U32_MAX && |names.temporaryName| <= U32_MAX && |names.finalName| <= U32_MAX
    ensures DecodeNames(NamesBytes(names) + rest) == Success((names, rest))
  {
    var original, temporary, final :=
      NameBytes(names.originalName), NameBytes(names.temporaryName), NameBytes(names.finalName);
    assert NamesBytes(names) + rest == original + (temporary + (final + rest)) by {
      Assoc(original, temporary + final, rest);
      Assoc(temporary, final, rest);
    }
    ReadsName(names.originalName, temporary + (final + rest));
    ReadsName(names.temporaryName, final + rest);
    ReadsName(names.finalName, rest);
  }

  lemma ReadsEntryTail(e: JournalEntry, version: u16, rest: seq<u8>)
    requires NamesFit(e, version)
    ensures DecodeEntryTail(EntryTailBytes(e, version) + rest, version) ==
            Success((EntryTail(e.executionIdentity, if version >= 2 then e.nativeParent else None,
                               if version >= 3 then e.undoOfPlanId else None,
                               if version >= 5 then e.parentExecutionIdentity else None), rest))
  {
    var identity, parent, undo, parentIdentity :=
      IdentityBytes(e.executionIdentity), ParentBytes(e.nativeParent, version),
      UndoBytes(e.undoOfPlanId, version), ParentIdentityBytes(e.parentExecutionIdentity, version);
    var r3 := parentIdentity + rest;
    var r2 := undo + r3;
    var r1 := parent + r2;
    assert EntryTailBytes(e, version) + rest == identity + r1 by {
      Assoc(identity, parent + (undo + parentIdentity), rest);
      Assoc(parent, undo + parentIdentity, rest);
      Assoc(undo, parentIdentity, rest);
    }
    ReadsIdentity(e.executionIdentity, r1);
    ReadsParent(e.nativeParent, version, r2);
    ReadsUndo(e.undoOfPlanId, version, r3);
    ReadsParentIdentity(e.parentExecutionIdentity, version, rest);
  }

  /** One entry: what comes back is the erased entry, unless the version cannot read its kind. */
  lemma ReadsEntry(e: JournalEntry, version: u16, rest: seq<u8>)
    requires NamesFit(e, version)
    ensures DecodeEntry(EntryBytes(e, version) + rest, version) ==
            if KindReadable(e, version) then Success((EraseEntry(PlacedEntry(e), version), rest)) else Failure(InvalidPayload)
    ensures e.Constructible() ==> PlacedEntry(e) == e
  {
    var source, parent, names, fingerprint, tail :=
      PutLE(e.sourceId, 8), PutLE(e.parentId, 8), NamesBytes(e.names),
      FingerprintBytes(e.admissionFingerprint), EntryTailBytes(e, version);
    var r4 := tail + rest;
    var r3 := fingerprint + r4;
    var r2 := names + r3;
    var r1 := parent + r2;
    assert EntryBytes(e, version) + rest == source + r1 by {
      Assoc(source, parent + (names + (fingerprint + tail)), rest);
      Assoc(parent, names + (fingerprint + tail), rest);
      Assoc(names, fingerprint + tail, rest);
      Assoc(fingerprint, tail, rest);
    }
    ReadsU64(e.sourceId, r1);
    ReadsU64(e.parentId, r2);
    ReadsNames(e.names, r3);
    ReadsFingerprint(e.admissionFingerprint, version, r4);
    ReadsEntryTail(e, version, rest);
  }

  lemma ErasesEach(entries: seq<JournalEntry>, version: u16)
    requires entries != []
    ensures EraseEntries(entries, version) == [EraseEntry(entries[0], version)] + EraseEntries(entries[1..], version)
  {
    var left := EraseEntries(entries, version);
    var right := [EraseEntry(entries[0], version)] + EraseEntries(entries[1..], version);
    assert |left| == |right|;
    forall i | 0 <= i < |left| ensures left[i] == right[i] {
      assert i > 0 ==> entries[1..][i - 1] == entries[i];
    }
  }

  lemma ReadableEach(entries: seq<JournalEntry>, version: u16)
    requires entries != []
    ensures EntriesReadable(entries, version) <==> KindReadable(entries[0], version) && EntriesReadable(entries[1..], version)
  {
    var others := entries[1..];
    if KindReadable(entries[0], version) && EntriesReadable(others, version) {
      forall i | 0 <= i < |entries| ensures KindReadable(entries[i], version) {
        assert i > 0 ==> KindReadable(others[i - 1], version);
      }
    }
    if EntriesReadable(entries, version) {
      forall i | 0 <= i < |others| ensures KindReadable(others[i], version) {
        assert KindReadable(entries[i + 1], version);
      }
    }
  }

  lemma DecodesCons(s: seq<u8>, count: nat, version: u16, first: JournalEntry, middle: seq<u8>,
                    others: seq<JournalEntry>, rest: seq<u8>)
    ensures count > 0 && DecodeEntry(s, version) == Success((first, middle))
            && DecodeEntries(middle, count - 1, version) == Success((others, rest))
            ==> DecodeEntries(s, count, version) == Success(([first] + others, rest))
  {
  }

  lemma {:induction false} ReadsEntries(entries: seq<JournalEntry>, version: u16, rest: seq<u8>)
    requires EncodeEntries(entries, version).Success?
    ensures DecodeEntries(EncodeEntries(entries, version).value + rest, |entries|, version) ==
            if EntriesReadable(entries, version) then Success((EraseEntries(PlacedEntries(entries), version), rest))
            else Failure(InvalidPayload)
  {
    if entries == [] {
      assert [] + rest == rest;
      assert EraseEntries(PlacedEntries(entries), version) == [];
    } else {
      var first, others := entries[0], entries[1..];
      assert PlacedEntries(entries)[1..] == PlacedEntries(others);
      ErasesEach(PlacedEntries(entries), version);
      ReadableEach(entries, version);
      var tail := EncodeEntries(others, version).value;
      assert EncodeEntries(entries, version).value + rest == EntryBytes(first, version) + (tail + rest) by {
        Assoc(EntryBytes(first, version), tail, rest);
      }
      ReadsEntry(first, version, tail + rest);
      ReadsEntries(others, version, rest);
      if EntriesReadable(entries, version) {
        DecodesCons(EntryBytes(first, version) + (tail + rest), |entries|, version, EraseEntry(PlacedEntry(first), version),
                    tail + rest, EraseEntries(PlacedEntries(others), version), rest);
      }
    }
  }

  lemma ReadsHeader(record: JournalRecord, version: u16)
    requires record.TransactionStarted? && EncodeRecord(record, version).Success?
    ensures DecodeRecord(1, EncodeRecord(record, version).value, version) ==
            if Readable(record, version) then Success(Erase(Placed(record), version)) else Failure(InvalidPayload)
  {
    var entries := EncodeEntries(record.entries, version).value;
    assert entries + [] == entries;
    var r4 := entries;
    var r3 := PutLE(|record.entries|, 4) + r4;
    var r2 := PutLE(record.stepCount, 8) + r3;
    var r1 := PutLE(record.sourceGeneration, 8) + r2;
    ReadsU64(record.planId, r1);
    ReadsU64(record.sourceGeneration, r2);
    ReadsU64(record.stepCount, r3);
    ReadsU32(|record.entries|, r4);
    ReadsEntries(record.entries, version, []);
  }

  lemma ReadsStep(step: u64)
    ensures ReadU64(PutLE(step, 8)) == Success((step, []))
  {
    ReadsU64(step, []);
    assert PutLE(step, 8) + [] == PutLE(step, 8);
  }

  lemma ReadsCompletion(step: u64, identity: ExecutionIdentity)
    ensures ReadU64(PutLE(step, 8) + IdentityBytes(identity)) == Success((step, IdentityBytes(identity)))
    ensures DecodeIdentity(IdentityBytes(identity)) == Success((identity, []))
  {
    ReadsU64(step, IdentityBytes(identity));
    ReadsIdentity(identity, []);
    assert IdentityBytes(identity) + [] == IdentityBytes(identity);
  }

  lemma ReadsCause(cause: RollbackCause)
    ensures DecodeCause(CauseBytes(cause)) == Success((cause, []))
  {
    match cause
    case Cancelled =>
      assert [1] + [] == [1];
      ReadsU8(1, []);
    case RecoveryRequested =>
      assert [3] + [] == [3];
      ReadsU8(3, []);
    case ForwardStepFailed(step) =>
      ReadsU8(2, PutLE(step, 8));
      ReadsStep(step);
  }

  /** The payload round trip at every version: the record comes back with exactly the fields the
      version lacks erased, unless it lists a directory that the version cannot read. Records that the
      program builds have no stray identity to drop. */
  lemma RecordRoundTrip(record: JournalRecord, version: u16)
    requires EncodeRecord(record, version).Success?
    ensures DecodeRecord(RecordKind(record), EncodeRecord(record, version).value, version) ==
            if Readable(record, version) then Success(Erase(Placed(record), version)) else Failure(InvalidPayload)
    ensures Constructible(record) ==> Placed(record) == record
  {
    if Constructible(record) {
      ConstructibleIsPlaced(record);
    }
    match record
    case TransactionStarted(_, _, _, _) => ReadsHeader(record, version);
    case ForwardBatchPrepared(first, count) =>
      ReadsU64(first, PutLE(count, 8));
      ReadsStep(count);
    case ForwardStepCompleted(step, identity) => ReadsCompletion(step, identity);
    case RollbackStepCompleted(step, identity) => ReadsCompletion(step, identity);
    case RollbackStarted(cause) => ReadsCause(cause);
    case TransactionCompleted =>
    case TransactionRolledBack =>
    case _ => ReadsStep(record.stepIndex);
  }

  /** Nothing is erased, and everything is readable, at the versions that can be resumed. */
  lemma ResumableVersionsKeepAll(record: JournalRecord, version: u16)
    requires MIN_RESUMABLE_JOURNAL_SCHEMA_VERSION <= version
    ensures Erase(record, version) == record && Readable(record, version)
  {
    if record.TransactionStarted? {
      assert EraseEntries(record.entries, version) == record.entries;
    }
  }

  /** Before version 4 a journal accepts a directory entry that its own reader then rejects. */
  lemma DirectoriesAreUnreadableBeforeVersion4(e: JournalEntry, version: u16)
    requires SupportedVersion(version) && version < 4 && e.admissionFingerprint.entryKind == Directory
    requires EncodeEntry(e, version).Success?
    ensures var header := TransactionStarted(1, 1, 2, [e]);
            && EncodeRecord(header, version).Success?
            && DecodeRecord(1, EncodeRecord(header, version).value, version) == Failure(InvalidPayload)
  {
    assert EncodeEntries([], version) == Success([]);
    assert [e][1..] == [];
    var header := TransactionStarted(1, 1, 2, [e]);
    assert !KindReadable(header.entries[0], version);
    ReadsHeader(header, version);
  }

  // ---------------------------------------------------------------- where the fields are

  /** A header starts with its four numbers, and a step record with its step. */
  ghost predicate IsLaidOut(record: JournalRecord, s: seq<u8>, version: u16) {
    match record
    case TransactionStarted(planId, generation, stepCount, entries) =>
      && |s| >= 28 && GetLE(s[..8]) == planId && GetLE(s[8..16]) == generation && GetLE(s[16..24]) == stepCount
      && GetLE(s[24..28]) == |entries| && EncodeEntries(entries, version) == Success(s[28..])
    case ForwardBatchPrepared(first, count) => |s| == 16 && GetLE(s[..8]) == first && GetLE(s[8..]) == count
    case ForwardStepCompleted(step, identity) => |s| >= 8 && GetLE(s[..8]) == step && s[8..] == IdentityBytes(identity)
    case RollbackStepCompleted(step, identity) => |s| >= 8 && GetLE(s[..8]) == step && s[8..] == IdentityBytes(identity)
    case RollbackStarted(cause) => s != [] && (cause.ForwardStepFailed? ==> |s| == 9 && GetLE(s[1..]) == cause.stepIndex)
    case TransactionCompleted => s == []
    case TransactionRolledBack => s == []
    case _ => |s| == 8 && GetLE(s) == record.stepIndex
  }

  lemma HeadersAreLaidOut(record: JournalRecord, version: u16)
    requires record.TransactionStarted? && EncodeRecord(record, version).Success?
    ensures IsLaidOut(record, EncodeRecord(record, version).value, version)
  {
    Widths();
    var s, entries := EncodeRecord(record, version).value, EncodeEntries(record.entries, version).value;
    GetPut(record.planId, 8);
    GetPut(record.sourceGeneration, 8);
    GetPut(record.stepCount, 8);
    GetPut(|record.entries|, 4);
    FieldsAreLaidOut(PutLE(record.planId, 8), PutLE(record.sourceGeneration, 8), PutLE(record.stepCount, 8),
                     PutLE(|record.entries|, 4), entries);
  }

  lemma FieldsAreLaidOut(a: seq<u8>, b: seq<u8>, c: seq<u8>, d: seq<u8>, rest: seq<u8>)
    requires |a| == |b| == |c| == 8 && |d| == 4
    ensures var s := a + (b + (c + (d + rest)));
            |s| >= 28 && s[..8] == a && s[8..16] == b && s[16..24] == c && s[24..28] == d && s[28..] == rest
  {
  }

  lemma RecordsAreLaidOut(record: JournalRecord, version: u16)
    requires EncodeRecord(record, version).Success?
    ensures IsLaidOut(record, EncodeRecord(record, version).value, version)
  {
    Widths();
    var s := EncodeRecord(record, version).value;
    if record.TransactionStarted? {
      HeadersAreLaidOut(record, version);
    } else if record.ForwardBatchPrepared? {
      GetPut(record.firstStep, 8);
      GetPut(record.batchSteps, 8);
      assert s[..8] == PutLE(record.firstStep, 8) && s[8..] == PutLE(record.batchSteps, 8);
    } else if record.ForwardStepCompleted? || record.RollbackStepCompleted? {
      GetPut(record.stepIndex, 8);
      assert s[..8] == PutLE(record.stepIndex, 8) && s[8..] == IdentityBytes(record.observedIdentity);
    } else if record.RollbackStarted? {
      if record.cause.ForwardStepFailed? {
        GetPut(record.cause.stepIndex, 8);
        assert s[1..] == PutLE(record.cause.stepIndex, 8);
      }
    } else if !record.TransactionCompleted? && !record.TransactionRolledBack? {
      GetPut(record.stepIndex, 8);
    }
  }

  /** A name is its kind, its length and its bytes. */
  lemma NamesAreLaidOut(name: Name)
    requires |name| <= U32_MAX
    ensures var s := NameBytes(name); |s| == 5 + |name| && GetLE(s[1..5]) == |name| && s[5..] == name
  {
    Widths();
    GetPut(|name|, 4);
    assert NameBytes(name)[1..5] == PutLE(|name|, 4);
  }

  /** An entry starts with its two ids and then its original, its temporary and its final name. */
  lemma EntriesAreLaidOut(e: JournalEntry, version: u16)
    ensures var s, names := EntryBytes(e, version), e.names;
            && |s| >= 16 && GetLE(s[..8]) == e.sourceId && GetLE(s[8..16]) == e.parentId
            && NameBytes(names.originalName) + (NameBytes(names.temporaryName) + NameBytes(names.finalName)) <= s[16..]
  {
    Widths();
    GetPut(e.sourceId, 8);
    GetPut(e.parentId, 8);
    PrefixIsLaidOut(PutLE(e.sourceId, 8), PutLE(e.parentId, 8), NamesBytes(e.names),
                    FingerprintBytes(e.admissionFingerprint) + EntryTailBytes(e, version));
  }

  lemma PrefixIsLaidOut(a: seq<u8>, b: seq<u8>, c: seq<u8>, rest: seq<u8>)
    requires |a| == |b| == 8
    ensures var s := a + (b + (c + rest)); |s| >= 16 && s[..8] == a && s[8..16] == b && c <= s[16..]
  {
    assert (a + (b + (c + rest)))[16..] == c + rest;
  }
}
