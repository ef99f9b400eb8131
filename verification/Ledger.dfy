/** The ledger of past transactions: what it lists about a journal, and how far what it offers agrees with
    what undo and recovery accept. */
module Ledger {
  import opened Primitives
  import opened Execution
  import opened RecordCodec
  import opened Frames
  import opened Journal
  import opened Replay
  import Appender
  import Undo
  import Recovery

  const MAX_JOURNAL_FILE_BYTES: nat := Recovery.MAX_JOURNAL_FILE_BYTES

  datatype LedgerStatus =
    | Finished
    | TakenBack
    | ForwardOpen
    | CompletionOpen
    | RollbackOpen
    | RollbackCompletionOpen
    | ToReconcile
    | ToRecover
    | LegacyInspectionRequired
    | Torn
    | Damaged
    | OtherVersion
    | TooLarge
    | DiscoveryLimitExceeded
    | Unreadable

  datatype LedgerEntry = LedgerEntry(
    ledgerId: u64, planId: Option<u64>, sourceGeneration: Option<u64>, schemaVersion: Option<u16>, sourceCount: nat,
    status: LedgerStatus, attentionStep: Option<nat>, recoveryAvailable: bool,
    undoOfPlanId: Option<u64>, undoAvailable: bool)

  function EmptyProjection(ledgerId: u64, status: LedgerStatus): LedgerEntry {
    LedgerEntry(ledgerId, None, None, None, 0, status, None, false, None, false)
  }

  function ProjectStatus(status: JournalStatus): (LedgerStatus, Option<nat>, bool) {
    match status
    case ForwardPending(step) => (ForwardOpen, Some(step), true)
    case CompletionPending => (CompletionOpen, None, true)
    case RollbackPending(_, step) => (RollbackOpen, Some(step), true)
    case RollbackCompletionPending(_) => (RollbackCompletionOpen, None, true)
    case ReconciliationRequired(_, step) => (ToReconcile, Some(step), true)
    case RecoveryRequired(_, step) => (ToRecover, Some(step), true)
    case Completed => (LedgerStatus.Finished, None, false)
    case RolledBack(_) => (TakenBack, None, false)
  }

  function IssueStatus(kind: JournalCodecErrorKind): LedgerStatus {
    match kind
    case UnsupportedVersion(_) => OtherVersion
    case TruncatedHeader => Torn
    case TruncatedPayload => Torn
    case _ => Damaged
  }

  function FirstEntries(frames: seq<JournalFrame>): seq<JournalEntry> {
    if frames != [] && frames[0].record.TransactionStarted? then frames[0].record.entries else []
  }

  predicate AllLocated(entries: seq<JournalEntry>) {
    forall e :: e in entries ==> e.nativeParent.Some?
  }

  predicate AllIdentified(entries: seq<JournalEntry>) {
    forall e :: e in entries ==> e.parentExecutionIdentity.Some?
  }

  /** All entries undo the same transaction, or none undoes any. */
  predicate OneLineage(entries: seq<JournalEntry>) {
    forall e :: e in entries ==> e.undoOfPlanId == entries[0].undoOfPlanId
  }

  function ProjectInspection(ledgerId: u64, inspection: JournalInspection): LedgerEntry {
    var frames := inspection.frames;
    var started := frames != [] && frames[0].record.TransactionStarted?;
    var entries := FirstEntries(frames);
    var planId := if started then Some(frames[0].record.planId) else None;
    var generation := if started then Some(frames[0].record.sourceGeneration) else None;
    var version := if frames != [] then Some(frames[0].schemaVersion) else None;
    var undoOf := if entries != [] then entries[0].undoOfPlanId else None;
    var base := LedgerEntry(ledgerId, planId, generation, version, |entries|, Damaged, None, false, undoOf, false);
    if inspection.issue.Some? then
      base.(status := IssueStatus(inspection.issue.value.kind), attentionStep := Some(inspection.issue.value.frameIndex))
    else if !OneLineage(entries) then base
    else match Replayed(RecordsOf(frames))
      case Failure(_) => base
      case Success(journalStatus) =>
        var (status, attention, recoverable) := ProjectStatus(journalStatus);
        var located, identified := started && AllLocated(entries), started && entries != [] && AllIdentified(entries);
        var legacy := status != TakenBack && !(located && identified);
        base.(status := if legacy then LegacyInspectionRequired else status, attentionStep := attention,
              recoveryAvailable := recoverable && !legacy,
              undoAvailable := !legacy && status == LedgerStatus.Finished && undoOf.None? && entries != [] && located && identified)
  }

  // ---------------------------------------------------------------- what the listing promises

  /** The journal can be opened for recovery or for an undo: it is whole and of the current version. */
  ghost predicate CanBeOpened(crc: Checksum, bytes: seq<u8>)
    requires Measured(Reader(crc))
  {
    var frames := Decoded(Reader(crc), bytes);
    && |bytes| <= MAX_JOURNAL_FILE_BYTES && frames.Success? && frames.value != []
    && frames.value[0].schemaVersion == JOURNAL_SCHEMA_VERSION && Appender.HasParentAuthority(frames.value[0].record)
  }

  ghost function RecordsIn(crc: Checksum, bytes: seq<u8>): seq<JournalRecord>
    requires Measured(Reader(crc))
  {
    RecordsOf(Inspected(Reader(crc), bytes).frames)
  }

  ghost function Listing(crc: Checksum, ledgerId: u64, bytes: seq<u8>): LedgerEntry
    requires Measured(Reader(crc))
  {
    ProjectInspection(ledgerId, Inspected(Reader(crc), bytes))
  }

  lemma ListsRecovery(ledgerId: u64, inspection: JournalInspection)
    ensures var records := RecordsOf(inspection.frames);
            ProjectInspection(ledgerId, inspection).recoveryAvailable <==>
              && inspection.issue.None? && Recovery.Resumable(records) && AllLocated(records[0].entries) && OneLineage(records[0].entries)
  {
    var records := RecordsOf(inspection.frames);
    if Replayed(records).Success? {
      ReplayInvariant(records);
    }
  }

  /** The header of a journal, if there is one. */
  ghost predicate HasHeader(records: seq<JournalRecord>) {
    records != [] && records[0].TransactionStarted?
  }

  /** The step that somebody has to look at. */
  ghost function AttentionOf(status: JournalStatus): Option<nat> {
    match status
    case ForwardPending(step) => Some(step)
    case RollbackPending(_, step) => Some(step)
    case ReconciliationRequired(_, step) => Some(step)
    case RecoveryRequired(_, step) => Some(step)
    case _ => None
  }

  /** How a transaction is listed by where it stands. */
  ghost predicate Shows(listed: LedgerStatus, status: JournalStatus) {
    match listed
    case Finished => status.Completed?
    case TakenBack => status.RolledBack?
    case ForwardOpen => status.ForwardPending?
    case CompletionOpen => status.CompletionPending?
    case RollbackOpen => status.RollbackPending?
    case RollbackCompletionOpen => status.RollbackCompletionPending?
    case ToReconcile => status.ReconciliationRequired?
    case ToRecover => status.RecoveryRequired?
    case _ => false
  }

  /** A journal is listed under the ids in its header, whatever lies behind that. */
  lemma ListsTheHeader(ledgerId: u64, inspection: JournalInspection)
    ensures var listing, records := ProjectInspection(ledgerId, inspection), RecordsOf(inspection.frames);
            && listing.ledgerId == ledgerId
            && listing.schemaVersion == (if records == [] then None else Some(inspection.frames[0].schemaVersion))
            && (HasHeader(records) ==>
                  && listing.planId == Some(records[0].planId) && listing.sourceGeneration == Some(records[0].sourceGeneration)
                  && listing.sourceCount == |records[0].entries|
                  && (records[0].entries != [] ==> listing.undoOfPlanId == records[0].entries[0].undoOfPlanId))
            && (!HasHeader(records) ==>
                  listing.planId.None? && listing.sourceGeneration.None? && listing.sourceCount == 0 && listing.undoOfPlanId.None?)
  {
  }

  /** Damage is listed by its kind and place, and a whole journal by where its transaction stands; one that
      does not say where its sources are is listed as such, unless it was taken back. */
  lemma ListsTheStatus(ledgerId: u64, inspection: JournalInspection)
    ensures var listing, records := ProjectInspection(ledgerId, inspection), RecordsOf(inspection.frames);
            match inspection.issue
            case Some(issue) =>
              && listing.attentionStep == Some(issue.frameIndex)
              && (listing.status == OtherVersion <==> issue.kind.UnsupportedVersion?)
              && (listing.status == Torn <==> TornKind(issue.kind))
              && (listing.status == Damaged <==> !issue.kind.UnsupportedVersion? && !TornKind(issue.kind))
            case None =>
              if !HasHeader(records) || !OneLineage(records[0].entries) || Replayed(records).Failure? then
                listing.status == Damaged && listing.attentionStep.None?
              else
                && listing.attentionStep == AttentionOf(Replayed(records).value)
                && if Replayed(records).value.RolledBack? || (AllLocated(records[0].entries) && AllIdentified(records[0].entries))
                   then Shows(listing.status, Replayed(records).value)
                   else listing.status == LegacyInspectionRequired
  {
    var records := RecordsOf(inspection.frames);
    if Replayed(records).Success? {
      ReplayInvariant(records);
    }
  }

  /** A finished transaction that can be taken back as far as its journal tells. */
  ghost predicate Reversible(records: seq<JournalRecord>) {
    && Replayed(records) == Success(Completed) && records != [] && records[0].TransactionStarted?
    && AllLocated(records[0].entries) && AllIdentified(records[0].entries)
    && forall e :: e in records[0].entries ==> e.undoOfPlanId.None?
  }

  lemma ListsUndo(ledgerId: u64, inspection: JournalInspection)
    ensures ProjectInspection(ledgerId, inspection).undoAvailable <==>
              inspection.issue.None? && Reversible(RecordsOf(inspection.frames))
  {
    var records := RecordsOf(inspection.frames);
    if Replayed(records).Success? {
      ReplayInvariant(records);
    }
  }

  /** A transaction is listed as recoverable exactly if its journal follows the protocol to an open end, names
      its directories, says where its sources are and is of one lineage. That its journal can be opened takes
      the current version as well. */
  lemma RecoveryIsListed(crc: Checksum, ledgerId: u64, bytes: seq<u8>)
    requires |bytes| <= MAX_JOURNAL_FILE_BYTES
    ensures Measured(Reader(crc))
    ensures var listing, records := Listing(crc, ledgerId, bytes), RecordsIn(crc, bytes);
            && (listing.recoveryAvailable <==>
                  && Decoded(Reader(crc), bytes).Success? && Recovery.Resumable(records)
                  && AllLocated(records[0].entries) && OneLineage(records[0].entries))
            && (listing.recoveryAvailable ==>
                  (CanBeOpened(crc, bytes) <==> listing.schemaVersion == Some(JOURNAL_SCHEMA_VERSION)))
  {
    ReaderIsSound(crc);
    ListsRecovery(ledgerId, Inspected(Reader(crc), bytes));
  }

  /** A transaction is listed as undoable exactly if its journal is that of a finished transaction that can be
      reversed. Undoing it then passes if and only if the journal is of the current version and no two final
      names compare equal, as far as the disk allows. */
  lemma UndoIsListed(crc: Checksum, ledgerId: u64, bytes: seq<u8>, key: Undo.ComparisonKey)
    requires |bytes| <= MAX_JOURNAL_FILE_BYTES
    ensures Measured(Reader(crc))
    ensures var listing, records := Listing(crc, ledgerId, bytes), RecordsIn(crc, bytes);
            && (listing.undoAvailable <==> Decoded(Reader(crc), bytes).Success? && Reversible(records))
            && (Undo.Admissible(key, records) && Decoded(Reader(crc), bytes).Success? ==> listing.undoAvailable)
            && (listing.undoAvailable ==>
                  && Undo.Addressed(records[0].entries)
                  && (Undo.Admissible(key, records) <==> Undo.KeysApart(key, records[0].entries))
                  && (CanBeOpened(crc, bytes) <==> listing.schemaVersion == Some(JOURNAL_SCHEMA_VERSION)))
  {
    ReaderIsSound(crc);
    ListsUndo(ledgerId, Inspected(Reader(crc), bytes));
  }

  /** The version before the current one can be resumed by the journal writer and is listed as recoverable,
      but is not opened: a transaction that was interrupted before an update is offered in vain. */
  lemma OlderJournalsAreListedInVain(crc: Checksum, ledgerId: u64, header: JournalRecord)
    requires Journaled(crc, [header], MIN_RESUMABLE_JOURNAL_SCHEMA_VERSION)
    requires ValidHeader(header) && AllLocated(header.entries) && AllIdentified(header.entries) && OneLineage(header.entries)
    ensures Measured(Reader(crc))
    ensures var bytes := FileOf(Writer(crc, MIN_RESUMABLE_JOURNAL_SCHEMA_VERSION), [header]);
            Listing(crc, ledgerId, bytes).recoveryAvailable && !CanBeOpened(crc, bytes)
  {
    var version := MIN_RESUMABLE_JOURNAL_SCHEMA_VERSION;
    var bytes := FileOf(Writer(crc, version), [header]);
    JournalRoundTrip(crc, [header], version);
    ResumableRecords([header], version);
    assert RecordsIn(crc, bytes) == [header];
    assert Inspected(Reader(crc), bytes).frames[0].schemaVersion == version;
    ListsRecovery(ledgerId, Inspected(Reader(crc), bytes));
  }
}
