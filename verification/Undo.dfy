/** Undoing a completed transaction: a second transaction, built from the header of the first. */
module Undo {
  import opened Primitives
  import opened Execution
  import opened Replay
  import opened Frames
  import opened Machine
  import opened Transaction
  import opened Plans
  import opened Lookup
  import opened Cycles

  datatype UndoBlockReason = SourceChanged | DestinationOccupied

  datatype UndoReadiness = Ready | Blocked(reason: UndoBlockReason)

  datatype UndoInspection = UndoInspection(originalPlanId: u64, sourceCount: nat, readiness: UndoReadiness)

  datatype UndoErrorKind =
    | ActionUnavailable
    | InvalidProtocol
    | MissingNativeParent
    | MissingParentExecutionIdentity
    | NoTemporaryNameLeft
    | ScheduleFailed(schedule: ScheduleError)
    | FilesystemFailed(kind: ExecutionFsErrorKind)

  datatype UndoError = UndoError(sourceId: Option<u64>, kind: UndoErrorKind)

  type Undoing<+T> = Result<T, UndoError>

  datatype IdentityState = Absent | Expected | Other

  /** Names that a case-insensitive target would take for the same have the same key. */
  type ComparisonKey = Name -> Name

  type Owned = map<(NativePath, Name), ExecutionIdentity>

  function StateAt(fs: FileSystem, parent: NativePath, name: Name, entry: JournalEntry): Undoing<IdentityState> {
    if entry.parentExecutionIdentity.None? then Failure(UndoError(Some(entry.sourceId), MissingParentExecutionIdentity))
    else match fs.IdentityInParent(Location(parent, name), entry.parentExecutionIdentity.value)
      case Success(identity) => Success(if identity == entry.executionIdentity then Expected else Other)
      case Failure(SourceUnavailable) => Success(Absent)
      case Failure(UnsupportedEntry) => Success(Other)
      case Failure(kind) => Failure(UndoError(Some(entry.sourceId), FilesystemFailed(kind)))
  }

  function DestinationIsAvailable(fs: FileSystem, key: ComparisonKey, parent: NativePath, name: Name, entry: JournalEntry, owned: Owned)
    : Undoing<bool>
  {
    if entry.parentExecutionIdentity.None? then Failure(UndoError(Some(entry.sourceId), MissingParentExecutionIdentity))
    else match fs.IdentityInParent(Location(parent, name), entry.parentExecutionIdentity.value)
      case Success(identity) => Success((parent, key(name)) in owned && owned[(parent, key(name))] == identity)
      case Failure(SourceUnavailable) => Success(true)
      case Failure(UnsupportedEntry) => Success(false)
      case Failure(kind) => Failure(UndoError(Some(entry.sourceId), FilesystemFailed(kind)))
  }

  // ---------------------------------------------------------------- what the checks mean

  /** Every entry says where it lives and whose directory that was. */
  ghost predicate Addressed(entries: seq<JournalEntry>) {
    forall e :: e in entries ==> e.nativeParent.Some? && e.parentExecutionIdentity.Some?
  }

  function FinalKey(key: ComparisonKey, e: JournalEntry): (NativePath, Name)
    requires e.nativeParent.Some?
  {
    (e.nativeParent.value, key(e.names.finalName))
  }

  ghost predicate KeysApart(key: ComparisonKey, entries: seq<JournalEntry>)
    requires Addressed(entries)
  {
    forall i, j :: 0 <= i < j < |entries| ==> FinalKey(key, entries[i]) != FinalKey(key, entries[j])
  }

  /** The header of a completed transaction that was not itself an undo. */
  ghost predicate Admissible(key: ComparisonKey, records: seq<JournalRecord>) {
    && Replayed(records) == Success(Completed)
    && records != [] && records[0].TransactionStarted?
    && Addressed(records[0].entries) && KeysApart(key, records[0].entries)
    && forall e :: e in records[0].entries ==> e.undoOfPlanId.None?
  }

  /** The source is where the transaction left it. */
  ghost predicate Arrived(fs: FileSystem, e: JournalEntry)
    requires e.nativeParent.Some? && e.parentExecutionIdentity.Some?
  {
    var at, parentIdentity := FrozenEntry(e, e.nativeParent.value), e.parentExecutionIdentity.value;
    && fs.IdentityInParent(FinalAt(at), parentIdentity) == Success(e.executionIdentity)
    && fs.IdentityInParent(TemporaryAt(at), parentIdentity) == Failure(SourceUnavailable)
  }

  /** The original name is free, or held by a source that the undo moves away. */
  ghost predicate Vacant(fs: FileSystem, key: ComparisonKey, entries: seq<JournalEntry>, e: JournalEntry)
    requires Addressed(entries) && e.nativeParent.Some? && e.parentExecutionIdentity.Some?
  {
    var at := FrozenEntry(e, e.nativeParent.value);
    match fs.IdentityInParent(OriginalAt(at), e.parentExecutionIdentity.value)
    case Failure(kind) => kind.SourceUnavailable?
    case Success(identity) =>
      exists owner :: owner in entries && owner.executionIdentity == identity
                      && FinalKey(key, owner) == (e.nativeParent.value, key(e.names.originalName))
  }

  ghost predicate Undoable(fs: FileSystem, key: ComparisonKey, entries: seq<JournalEntry>, e: JournalEntry)
    requires Addressed(entries) && e.nativeParent.Some? && e.parentExecutionIdentity.Some?
  {
    Arrived(fs, e) && Vacant(fs, key, entries, e)
  }

  /** The disk tells what is under this name, if anything. */
  ghost predicate Tells(fs: FileSystem, e: JournalEntry, at: Location)
    requires e.parentExecutionIdentity.Some?
  {
    match fs.IdentityInParent(at, e.parentExecutionIdentity.value)
    case Success(_) => true
    case Failure(kind) => kind.SourceUnavailable? || kind.UnsupportedEntry?
  }

  /** `owned` holds the final destinations of the entries, and nothing else. */
  ghost predicate OwnsFinals(key: ComparisonKey, entries: seq<JournalEntry>, owned: Owned)
    requires Addressed(entries)
  {
    && (forall e :: e in entries ==> FinalKey(key, e) in owned && owned[FinalKey(key, e)] == e.executionIdentity)
    && (forall k :: k in owned ==> exists e :: e in entries && FinalKey(key, e) == k)
  }

  // ---------------------------------------------------------------- inspection

  method OwnedFinalDestinations(key: ComparisonKey, entries: seq<JournalEntry>) returns (r: Undoing<Owned>)
    requires forall e :: e in entries ==> e.parentExecutionIdentity.Some?
    ensures r.Success? <==> Addressed(entries) && KeysApart(key, entries)
    ensures r.Success? ==> OwnsFinals(key, entries, r.value)
    ensures r.Failure? ==>
              || (r.error.kind.MissingNativeParent? && exists e :: e in entries && e.nativeParent.None? && r.error.sourceId == Some(e.sourceId))
              || (r.error == UndoError(None, InvalidProtocol) && exists i, j :: 0 <= i < j < |entries| && SameFinalKey(key, entries[i], entries[j]))
  {
    var destinations: Owned := map[];
    for i := 0 to |entries|
      invariant Addressed(entries[..i]) && KeysApart(key, entries[..i]) && OwnsFinals(key, entries[..i], destinations)
    {
      var entry := entries[i];
      ghost var done := entries[..i];
      assert entries[..i + 1] == done + [entry];
      if entry.nativeParent.None? {
        return Failure(UndoError(Some(entry.sourceId), MissingNativeParent));
      }
      var k := FinalKey(key, entry);
      if k in destinations {
        ghost var e :| e in done && FinalKey(key, e) == k;
        ghost var j :| 0 <= j < i && done[j] == e;
        assert entries[j] == e && SameFinalKey(key, entries[j], entries[i]);
        return Failure(UndoError(None, InvalidProtocol));
      }
      destinations := destinations[k := entry.executionIdentity];
    }
    assert entries[..|entries|] == entries;
    return Success(destinations);
  }

  function Header(records: seq<JournalRecord>): Undoing<(u64, seq<JournalEntry>)> {
    if records == [] || !records[0].TransactionStarted? || records[0].entries == [] then Failure(UndoError(None, InvalidProtocol))
    else Success((records[0].planId, records[0].entries))
  }

  lemma AvailabilityMeans(fs: FileSystem, key: ComparisonKey, entries: seq<JournalEntry>, e: JournalEntry, owned: Owned)
    requires Addressed(entries) && OwnsFinals(key, entries, owned) && e in entries
    requires DestinationIsAvailable(fs, key, e.nativeParent.value, e.names.originalName, e, owned).Success?
    ensures DestinationIsAvailable(fs, key, e.nativeParent.value, e.names.originalName, e, owned).value <==> Vacant(fs, key, entries, e)
  {
  }

  /** Checks the entries in order, up to the first obstacle. */
  method InspectEntries(fs: FileSystem, key: ComparisonKey, entries: seq<JournalEntry>, owned: Owned)
    returns (r: Undoing<UndoReadiness>)
    requires Addressed(entries) && OwnsFinals(key, entries, owned)
    ensures r.Failure? ==> r.error.kind.FilesystemFailed? && exists i: nat :: IsFirstTrouble(fs, key, entries, i, r.error)
    ensures r.Success? ==> (r.value.Ready? <==> AllUndoable(fs, key, entries))
    ensures r.Success? && r.value.Blocked? ==> exists i: nat :: IsFirstObstacle(fs, key, entries, i, r.value.reason)
    ensures fs.Untroubled() && ParentsUnchanged(fs, entries) ==> r.Success?
  {
    for i := 0 to |entries|
      invariant forall e :: e in entries[..i] ==> Undoable(fs, key, entries, e)
    {
      var entry := entries[i];
      assert entry in entries && entries[..i + 1] == entries[..i] + [entry];
      var parent := entry.nativeParent.value;
      var finalState := StateAt(fs, parent, entry.names.finalName, entry);
      ghost var at := FrozenEntry(entry, parent);
      if finalState.Failure? {
        assert !Tells(fs, entry, FinalAt(at)) && IsFirstTrouble(fs, key, entries, i, finalState.error);
        return Failure(finalState.error);
      }
      var temporaryState := StateAt(fs, parent, entry.names.temporaryName, entry);
      if temporaryState.Failure? {
        assert !Tells(fs, entry, TemporaryAt(at)) && IsFirstTrouble(fs, key, entries, i, temporaryState.error);
        return Failure(temporaryState.error);
      }
      if finalState.value != Expected || temporaryState.value != Absent {
        assert IsFirstObstacle(fs, key, entries, i, SourceChanged);
        return Success(Blocked(SourceChanged));
      }
      var available := DestinationIsAvailable(fs, key, parent, entry.names.originalName, entry, owned);
      if available.Failure? {
        assert !Tells(fs, entry, OriginalAt(at)) && IsFirstTrouble(fs, key, entries, i, available.error);
        return Failure(available.error);
      }
      AvailabilityMeans(fs, key, entries, entry, owned);
      if !available.value {
        assert IsFirstObstacle(fs, key, entries, i, DestinationOccupied);
        return Success(Blocked(DestinationOccupied));
      }
    }
    assert entries[..|entries|] == entries;
    return Success(Ready);
  }

  /** Readiness: every source stands where the transaction left it, and its original name is free or about
      to become free. A blocked inspection names the first obstacle. */
  method InspectUndoRecords(records: seq<JournalRecord>, fs: FileSystem, key: ComparisonKey) returns (r: Undoing<UndoInspection>)
    ensures r.Success? || (r.Failure? && r.error.kind.FilesystemFailed?) <==> Admissible(key, records)
    ensures r.Success? ==> r.value.originalPlanId == records[0].planId && r.value.sourceCount == |records[0].entries|
    ensures r.Success? ==> (r.value.readiness.Ready? <==> AllUndoable(fs, key, records[0].entries))
    ensures r.Success? && r.value.readiness.Blocked? ==>
              exists i: nat :: IsFirstObstacle(fs, key, records[0].entries, i, r.value.readiness.reason)
    ensures fs.Untroubled() && Admissible(key, records) && ParentsUnchanged(fs, records[0].entries) ==> r.Success?
    ensures r.Failure? ==> InspectionRefused(fs, key, records, r.error)
  {
    var status := ReplayJournal(records);
    if status != Success(Completed) {
      return Failure(UndoError(None, InvalidProtocol));
    }
    var header := Header(records);
    HeaderIsThere(records);
    var entries := header.value.1;
    if exists e :: e in entries && e.parentExecutionIdentity.None? {
      return Failure(UndoError(None, MissingParentExecutionIdentity));
    }
    if exists e :: e in entries && e.undoOfPlanId.Some? {
      return Failure(UndoError(None, ActionUnavailable));
    }
    var owned := OwnedFinalDestinations(key, entries);
    if owned.Failure? {
      return Failure(owned.error);
    }
    var readiness := InspectEntries(fs, key, entries, owned.value);
    if readiness.Failure? {
      return Failure(readiness.error);
    }
    return Success(UndoInspection(header.value.0, |entries|, readiness.value));
  }

  /** What each refusal of an inspection means, and which entry it names. */
  ghost predicate InspectionRefused(fs: FileSystem, key: ComparisonKey, records: seq<JournalRecord>, error: UndoError) {
    if Replayed(records) != Success(Completed) then error == UndoError(None, InvalidProtocol)
    else
      && records != [] && records[0].TransactionStarted?
      && var entries := records[0].entries;
         match error.kind
         case MissingParentExecutionIdentity => error.sourceId.None? && exists e :: e in entries && e.parentExecutionIdentity.None?
         case ActionUnavailable => error.sourceId.None? && exists e :: e in entries && e.undoOfPlanId.Some?
         case MissingNativeParent => exists e :: e in entries && e.nativeParent.None? && error.sourceId == Some(e.sourceId)
         case InvalidProtocol => error.sourceId.None? && exists i, j :: 0 <= i < j < |entries| && SameFinalKey(key, entries[i], entries[j])
         case FilesystemFailed(_) => Admissible(key, records) && exists i: nat :: IsFirstTrouble(fs, key, entries, i, error)
         case _ => false
  }

  ghost predicate SameFinalKey(key: ComparisonKey, a: JournalEntry, b: JournalEntry) {
    a.nativeParent == b.nativeParent && key(a.names.finalName) == key(b.names.finalName)
  }

  lemma HeaderIsThere(records: seq<JournalRecord>)
    requires Replayed(records) == Success(Completed)
    ensures records != [] && records[0].TransactionStarted? && records[0].entries != []
  {
    ReplayInvariant(records);
  }

  ghost predicate AllUndoable(fs: FileSystem, key: ComparisonKey, entries: seq<JournalEntry>)
    requires Addressed(entries)
  {
    forall e :: e in entries ==> Undoable(fs, key, entries, e)
  }

  ghost predicate ParentsUnchanged(fs: FileSystem, entries: seq<JournalEntry>)
    requires Addressed(entries)
  {
    forall e :: e in entries ==>
      e.nativeParent.value in fs.parents && fs.parents[e.nativeParent.value] == e.parentExecutionIdentity.value
  }

  ghost predicate IsFirstObstacle(fs: FileSystem, key: ComparisonKey, entries: seq<JournalEntry>, i: nat, reason: UndoBlockReason)
    requires Addressed(entries)
  {
    && i < |entries|
    && (forall e :: e in entries[..i] ==> Undoable(fs, key, entries, e))
    && var e := entries[i]; var at := FrozenEntry(e, e.nativeParent.value);
       match reason
       case SourceChanged => Tells(fs, e, FinalAt(at)) && Tells(fs, e, TemporaryAt(at)) && !Arrived(fs, e)
       case DestinationOccupied => Arrived(fs, e) && Tells(fs, e, OriginalAt(at)) && !Vacant(fs, key, entries, e)
  }

  /** The disk does not tell about the first entry that is not undoable; the error is the one that it answered,
      for the first name that it did not tell about. */
  ghost predicate IsFirstTrouble(fs: FileSystem, key: ComparisonKey, entries: seq<JournalEntry>, i: nat, error: UndoError)
    requires Addressed(entries)
  {
    && i < |entries| && (forall e :: e in entries[..i] ==> Undoable(fs, key, entries, e))
    && error.sourceId == Some(entries[i].sourceId) && error.kind.FilesystemFailed?
    && var e := entries[i]; var at := FrozenEntry(e, e.nativeParent.value);
       if !Tells(fs, e, FinalAt(at)) then Answers(fs, e, FinalAt(at), error.kind.kind)
       else if !Tells(fs, e, TemporaryAt(at)) then Answers(fs, e, TemporaryAt(at), error.kind.kind)
       else Arrived(fs, e) && !Tells(fs, e, OriginalAt(at)) && Answers(fs, e, OriginalAt(at), error.kind.kind)
  }

  ghost predicate Answers(fs: FileSystem, e: JournalEntry, at: Location, kind: ExecutionFsErrorKind)
    requires e.parentExecutionIdentity.Some?
  {
    fs.IdentityInParent(at, e.parentExecutionIdentity.value) == Failure(kind)
  }

  // ---------------------------------------------------------------- preparation

  /** The entry that takes `original` back by way of a fresh temporary name. */
  function Reverse(original: JournalEntry, temporary: Name, originalPlanId: u64): JournalEntry
    requires original.nativeParent.Some? && original.parentExecutionIdentity.Some?
  {
    JournalEntry(original.sourceId, original.parentId,
                 JournalNameGraph(original.names.finalName, temporary, original.names.originalName),
                 original.admissionFingerprint, original.executionIdentity,
                 original.parentExecutionIdentity, original.nativeParent, Some(originalPlanId))
  }

  /** The two entries are about one file in one directory, and know it by the same marks. */
  ghost predicate IsOfSameSource(a: JournalEntry, b: JournalEntry) {
    && a.sourceId == b.sourceId && a.parentId == b.parentId && a.admissionFingerprint == b.admissionFingerprint
    && a.executionIdentity == b.executionIdentity && a.parentExecutionIdentity == b.parentExecutionIdentity
    && a.nativeParent == b.nativeParent
  }

  /** `e` takes `original` back, by way of a temporary name that is free. */
  ghost predicate Reverses(fs: FileSystem, planId: u64, originalPlanId: u64, original: JournalEntry, e: FrozenEntry)
    requires original.nativeParent.Some? && original.parentExecutionIdentity.Some?
  {
    && e.parent == original.nativeParent.value
    && e.journalEntry == Reverse(original, e.journalEntry.names.temporaryName, originalPlanId)
    && IsOfSameSource(original, e.journalEntry) && e.journalEntry.undoOfPlanId == Some(originalPlanId)
    && IsTemporaryName(e.journalEntry.names.temporaryName, planId, original.sourceId)
    && fs.Identity(TemporaryAt(e)) == Failure(SourceUnavailable)
  }

  /** The entries of an undo, in any order: each original is reversed once. */
  ghost predicate Reversal(fs: FileSystem, planId: u64, originalPlanId: u64, originals: seq<JournalEntry>, entries: seq<FrozenEntry>)
    requires Addressed(originals)
  {
    && |entries| == |originals|
    && forall i :: 0 <= i < |entries| ==> Reverses(fs, planId, originalPlanId, originals[i], entries[i])
  }

  /** The inspection is what looking again would give, and it says that everything is ready. */
  ghost predicate IsReady(fs: FileSystem, key: ComparisonKey, records: seq<JournalRecord>, inspection: UndoInspection) {
    && Admissible(key, records) && AllUndoable(fs, key, records[0].entries)
    && inspection == UndoInspection(records[0].planId, |records[0].entries|, Ready)
    && fs.Untroubled() && ParentsUnchanged(fs, records[0].entries)
  }

  /** Every temporary name that would be tried for some source is taken. */
  ghost predicate UndoNamesUsedUp(fs: FileSystem, planId: u64, originals: seq<JournalEntry>)
    requires Addressed(originals)
  {
    exists original :: original in originals
                       && TakenBefore(fs, original.nativeParent.value, planId, original.sourceId, MAX_TEMPORARY_NAME_ATTEMPTS)
  }

  lemma UsedUpNamesCrowd(fs: FileSystem, planId: u64, originals: seq<JournalEntry>)
    requires Addressed(originals) && UndoNamesUsedUp(fs, planId, originals) && fs.Honest()
    ensures !Uncrowded(fs)
  {
    var original :| original in originals
                    && TakenBefore(fs, original.nativeParent.value, planId, original.sourceId, MAX_TEMPORARY_NAME_ATTEMPTS);
    var parent := original.nativeParent.value;
    HonestlyTaken(fs, parent, planId, original.sourceId, MAX_TEMPORARY_NAME_ATTEMPTS);
    TakenNamesCrowd(fs.tree, parent, planId, original.sourceId);
    assert |EntriesIn(fs.tree, parent)| >= 1024;
  }

  ghost predicate DistinctOriginals(originals: seq<JournalEntry>) {
    forall i, j :: 0 <= i < j < |originals| ==> originals[i].sourceId != originals[j].sourceId
  }

  /** The reversed entries can be scheduled if the originals could. */
  lemma ReversalCanBeScheduled(fs: FileSystem, planId: u64, originalPlanId: u64, originals: seq<JournalEntry>, entries: seq<FrozenEntry>)
    requires Addressed(originals) && Reversal(fs, planId, originalPlanId, originals, entries) && DistinctOriginals(originals)
    ensures DuplicateFree(SourceIds(entries))
  {
    var ids := SourceIds(entries);
    forall i | 0 <= i < |ids| ensures ids[i] == originals[i].sourceId {
      assert Reverses(fs, planId, originalPlanId, originals[i], entries[i]);
    }
    DistinctIsDuplicateFree(ids);
  }

  /** The search for a temporary name failed for some source, for want of names or on the disk. */
  ghost predicate ReversalRefused(fs: FileSystem, planId: u64, originals: seq<JournalEntry>, error: UndoError)
    requires Addressed(originals)
  {
    exists original ::
      && original in originals && error.sourceId == Some(original.sourceId)
      && var parent := original.nativeParent.value;
         match error.kind
         case NoTemporaryNameLeft => TakenBefore(fs, parent, planId, original.sourceId, MAX_TEMPORARY_NAME_ATTEMPTS)
         case FilesystemFailed(kind) => exists attempt: u32 :: IsFirstSilent(fs, parent, planId, original.sourceId, attempt, kind)
         case _ => false
  }

  /** What each refusal of an undo means. */
  ghost predicate UndoRefused(fs: FileSystem, key: ComparisonKey, records: seq<JournalRecord>, inspection: UndoInspection, planId: u64,
                              error: UndoError) {
    forall x {:trigger Unsealed(RefusedSeal, x)} :: Unsealed(RefusedSeal, x) ==>
      IsUndoRefused(fs, key, records, inspection, planId, error)
  }

  ghost predicate IsUndoRefused(fs: FileSystem, key: ComparisonKey, records: seq<JournalRecord>, inspection: UndoInspection, planId: u64,
                                error: UndoError) {
    if !inspection.readiness.Ready? then error == UndoError(None, ActionUnavailable)
    else if !Admissible(key, records) then InspectionRefused(fs, key, records, error)
    else
      var ready := AllUndoable(fs, key, records[0].entries)
                   && inspection == UndoInspection(records[0].planId, |records[0].entries|, Ready);
      || (error == UndoError(None, ActionUnavailable) && !ready)
      || (error.kind.FilesystemFailed? && InspectionRefused(fs, key, records, error))
      || (ready && ReversalRefused(fs, planId, records[0].entries, error))
      || (ready && error.sourceId.None? && error.kind.ScheduleFailed?)
  }

  /** Turns every entry around, through a temporary name that is free. */
  method ReverseEntries(originals: seq<JournalEntry>, planId: u64, originalPlanId: u64, fs: FileSystem)
    returns (r: Undoing<seq<FrozenEntry>>)
    requires Addressed(originals)
    ensures r.Success? ==> Reversal(fs, planId, originalPlanId, originals, r.value)
    ensures r.Failure? && fs.Untroubled() ==> r.error.kind.NoTemporaryNameLeft? && UndoNamesUsedUp(fs, planId, originals)
    ensures r.Failure? && fs.Honest() && Uncrowded(fs) ==> !r.error.kind.NoTemporaryNameLeft?
    ensures r.Failure? ==> ReversalRefused(fs, planId, originals, r.error)
  {
    var entries: seq<FrozenEntry> := [];
    for i := 0 to |originals|
      invariant |entries| == i
      invariant forall j :: 0 <= j < i ==> Reverses(fs, planId, originalPlanId, originals[j], entries[j])
    {
      var original := originals[i];
      assert original in originals;
      var parent := original.nativeParent.value;
      var temporary := AvailableTemporaryName(fs, parent, planId, original.sourceId);
      if temporary.Failure? {
        var kind := match temporary.error
          case TemporaryNameExhausted => NoTemporaryNameLeft
          case TemporaryNameTrouble(kind) => FilesystemFailed(kind);
        return Failure(UndoError(Some(original.sourceId), kind));
      }
      entries := entries + [FrozenEntry(Reverse(original, temporary.value, originalPlanId), parent)];
    }
    return Success(entries);
  }

  /** Looks once more, reverses the entries and schedules them. */
  method PrepareUndo(records: seq<JournalRecord>, inspection: UndoInspection, planId: u64, fs: FileSystem, key: ComparisonKey)
    returns (r: Undoing<FrozenExecutionPlan>, ghost unordered: seq<FrozenEntry>)
    ensures r.Success? ==> Admissible(key, records) && records[0].entries != [] && AllUndoable(fs, key, records[0].entries)
    ensures r.Success? ==> r.value.planId == planId && r.value.sourceGeneration == records[0].sourceGeneration
    ensures r.Success? ==> Reversal(fs, planId, records[0].planId, records[0].entries, unordered)
    ensures r.Success? ==> SameEntries(r.value.entries, unordered) && Ordered(r.value.View()) && r.value.View().Indexed()
    ensures r.Failure? && IsReady(fs, key, records, inspection) && DistinctOriginals(records[0].entries) ==>
              r.error.kind.NoTemporaryNameLeft? && UndoNamesUsedUp(fs, planId, records[0].entries)
    ensures r.Failure? ==> UndoRefused(fs, key, records, inspection, planId, r.error)
    ensures fs.Honest() && Uncrowded(fs) && r.Failure? ==> !r.error.kind.NoTemporaryNameLeft?
    ensures IsReady(fs, key, records, inspection) && DistinctOriginals(records[0].entries) && Uncrowded(fs) ==> r.Success?
  {
    unordered := [];
    if !inspection.readiness.Ready? {
      return Failure(UndoError(None, ActionUnavailable)), [];
    }
    var again := InspectUndoRecords(records, fs, key);
    if again.Failure? {
      return Failure(again.error), [];
    }
    if again.value != inspection {
      return Failure(UndoError(None, ActionUnavailable)), [];
    }
    var originals := records[0].entries;
    if fs.Honest() && UndoNamesUsedUp(fs, planId, originals) {
      UsedUpNamesCrowd(fs, planId, originals);
    }
    var reversed := ReverseEntries(originals, planId, inspection.originalPlanId, fs);
    if reversed.Failure? {
      return Failure(reversed.error), [];
    }
    var entries := reversed.value;
    var plan := FromEntries(planId, records[0].sourceGeneration, entries);
    if plan.Failure? {
      ReplayInvariant(records);
      if DistinctOriginals(originals) {
        ReversalCanBeScheduled(fs, planId, records[0].planId, originals, entries);
      }
      return Failure(UndoError(None, ScheduleFailed(plan.error))), [];
    }
    return Success(plan.value), entries;
  }
}
