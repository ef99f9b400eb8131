/** The execution protocol: the two-phase schedule, the journal records and their replay. */
module Execution {
  import opened Primitives
  import opened Sorting

  const MAX_ADMITTED_SOURCES: nat := 10_000

  type Name = seq<u8>
  type NativePath = seq<u8>
  type FileId = s: seq<u8> | |s| == 16 witness [0, 0, 0, 0, 0, 0, 0, 0, 0, 0, 0, 0, 0, 0, 0, 0]

  datatype ExecutionPhase = SourceToTemporary | TemporaryToFinal

  datatype ExecutionStep = ExecutionStep(index: usize, sourceId: u64, phase: ExecutionPhase)

  datatype ScheduleError = EmptyPlan | DuplicateSource(sourceId: u64) | TooManySources

  datatype ExecutionDirection = Forwards | Backwards

  datatype RollbackCause = Cancelled | ForwardStepFailed(stepIndex: usize) | RecoveryRequested

  datatype ExecutionIdentity = ExecutionIdentity(volumeSerialNumber: u64, fileId: FileId)

  datatype JournalNameGraph = JournalNameGraph(originalName: Name, temporaryName: Name, finalName: Name)

  datatype EntryKind = File | Directory | Symlink

  datatype EntryIdentitySignal = EntryIdentitySignal(primary: u64, secondary: u64)

  datatype SourceFingerprint = SourceFingerprint(
    entryKind: EntryKind, identitySignal: Option<EntryIdentitySignal>,
    byteLen: u64, modifiedNanos: Option<u128>)

  /** What a preview knows of a selected source. */
  datatype SourceSnapshot = SourceSnapshot(
    id: u64, parentId: u64, nativeName: Name, fingerprint: Option<SourceFingerprint>)

  datatype JournalEntry = JournalEntry(
    sourceId: u64, parentId: u64, names: JournalNameGraph,
    admissionFingerprint: SourceFingerprint, executionIdentity: ExecutionIdentity,
    parentExecutionIdentity: Option<ExecutionIdentity>,
    nativeParent: Option<NativePath>, undoOfPlanId: Option<u64>)
  {
    // The three constructors never record a parent identity without the parent's path.
    predicate Constructible() {
      parentExecutionIdentity.Some? ==> nativeParent.Some?
    }
  }

  datatype JournalRecord =
    | TransactionStarted(planId: u64, sourceGeneration: u64, stepCount: usize, entries: seq<JournalEntry>)
    | ForwardBatchPrepared(firstStep: usize, batchSteps: usize)
    | ForwardStepPrepared(stepIndex: usize)
    | ForwardStepCompleted(stepIndex: usize, observedIdentity: ExecutionIdentity)
    | ForwardStepNotApplied(stepIndex: usize)
    | RollbackStarted(cause: RollbackCause)
    | RollbackStepPrepared(stepIndex: usize)
    | RollbackStepCompleted(stepIndex: usize, observedIdentity: ExecutionIdentity)
    | RollbackStepNotApplied(stepIndex: usize)
    | RollbackStepFailed(stepIndex: usize)
    | RollbackRecoveryStarted(stepIndex: usize)
    | TransactionCompleted
    | TransactionRolledBack

  datatype JournalStatus =
    | ForwardPending(nextStep: nat)
    | CompletionPending
    | RollbackPending(cause: RollbackCause, nextStep: nat)
    | RollbackCompletionPending(cause: RollbackCause)
    | ReconciliationRequired(direction: ExecutionDirection, stepIndex: nat)
    | RecoveryRequired(cause: RollbackCause, failedStep: nat)
    | Completed
    | RolledBack(cause: RollbackCause)
  {
    predicate Terminal() { Completed? || RolledBack? }
  }

  datatype JournalReplayErrorKind =
    | EmptyJournal
    | MissingHeader
    | InvalidStepCount
    | InvalidPreparedBatch
    | UnexpectedRecord
    | UnexpectedStep(expected: nat, actual: nat)
    | RecordAfterTerminal

  datatype JournalReplayError = JournalReplayError(recordIndex: nat, kind: JournalReplayErrorKind)

  // ---------------------------------------------------------------- schedule

  predicate IdLe(a: u64, b: u64) { a <= b }

  ghost predicate StrictlyAscending(ids: seq<u64>) {
    forall i, j :: 0 <= i < j < |ids| ==> ids[i] < ids[j]
  }

  /** The two passes over the ordered sources, in index order. */
  ghost predicate IsTwoPhase(steps: seq<ExecutionStep>, ordered: seq<u64>) {
    && |steps| == 2 * |ordered| <= USIZE_MAX
    && (forall i :: 0 <= i < |ordered| ==> steps[i] == ExecutionStep(i, ordered[i], SourceToTemporary))
    && (forall i :: |ordered| <= i < |steps| ==> steps[i] == ExecutionStep(i, ordered[i - |ordered|], TemporaryToFinal))
  }

  lemma IdLeTotal()
    ensures TotalOrder(IdLe)
  {
  }

  ghost predicate DuplicateFree(ids: seq<u64>) {
    forall id :: multiset(ids)[id] <= 1
  }

  lemma {:induction false} DistinctIsDuplicateFree(ids: seq<u64>)
    requires forall i, j :: 0 <= i < j < |ids| ==> ids[i] != ids[j]
    ensures DuplicateFree(ids)
  {
    if ids != [] {
      var front, last := ids[..|ids| - 1], ids[|ids| - 1];
      DistinctIsDuplicateFree(front);
      assert ids == front + [last];
      assert last !in front;
    }
  }

  /** `id` is the smallest value that occurs more than once. */
  ghost predicate IsFirstDuplicate(id: u64, ids: seq<u64>) {
    && multiset(ids)[id] >= 2
    && forall other :: other < id ==> multiset(ids)[other] <= 1
  }

  ghost predicate IsScheduleOf(steps: seq<ExecutionStep>, ids: seq<u64>) {
    exists ordered: seq<u64> :: StrictlyAscending(ordered) && multiset(ordered) == multiset(ids) && IsTwoPhase(steps, ordered)
  }

  /** What each refusal of a schedule means. */
  ghost predicate CannotSchedule(ids: seq<u64>, error: ScheduleError) {
    match error
    case EmptyPlan => ids == []
    case DuplicateSource(id) => IsFirstDuplicate(id, ids)
    case TooManySources => DuplicateFree(ids) && 2 * |ids| > USIZE_MAX
  }

  method BuildTwoPhaseSchedule(sourceIds: seq<u64>) returns (r: Result<seq<ExecutionStep>, ScheduleError>)
    ensures r.Success? <==> sourceIds != [] && DuplicateFree(sourceIds) && 2 * |sourceIds| <= USIZE_MAX
    ensures r.Success? ==> IsScheduleOf(r.value, sourceIds)
    ensures r.Failure? ==> CannotSchedule(sourceIds, r.error)
  {
    if sourceIds == [] {
      return Failure(EmptyPlan);
    }
    var ordered := Sort(sourceIds, IdLe);
    IdLeTotal();
    SortSorts(sourceIds, IdLe);
    var duplicate := FindDuplicate(ordered);
    assert forall id :: multiset(ordered)[id] == multiset(sourceIds)[id];
    if duplicate.Some? {
      return Failure(DuplicateSource(duplicate.value));
    }
    if |ordered| * 2 > USIZE_MAX {
      return Failure(TooManySources);
    }
    var steps := PushPhases(ordered);
    return Success(steps);
  }

  method FindDuplicate(ordered: seq<u64>) returns (r: Option<u64>)
    requires SortedBy(ordered, IdLe)
    ensures r.None? ==> StrictlyAscending(ordered) && DuplicateFree(ordered)
    ensures r.Some? ==> IsFirstDuplicate(r.value, ordered)
  {
    var i := 1;
    while i < |ordered|
      invariant 1 <= i
      invariant |ordered| != 0 ==> i <= |ordered| && StrictlyAscending(ordered[..i])
    {
      if ordered[i - 1] == ordered[i] {
        FirstDuplicate(ordered, i);
        return Some(ordered[i]);
      }
      i := i + 1;
    }
    if ordered != [] {
      assert ordered[..i] == ordered;
    }
    AscendingIsDuplicateFree(ordered);
    return None;
  }

  method PushPhases(ordered: seq<u64>) returns (steps: seq<ExecutionStep>)
    requires 2 * |ordered| <= USIZE_MAX
    ensures IsTwoPhase(steps, ordered)
  {
    var n := |ordered|;
    steps := [];
    for k := 0 to n
      invariant |steps| == k
      invariant forall j :: 0 <= j < k ==> steps[j] == ExecutionStep(j, ordered[j], SourceToTemporary)
    {
      steps := steps + [ExecutionStep(k, ordered[k], SourceToTemporary)];
    }
    for k := 0 to n
      invariant |steps| == n + k
      invariant forall j :: 0 <= j < n ==> steps[j] == ExecutionStep(j, ordered[j], SourceToTemporary)
      invariant forall j :: n <= j < n + k ==> steps[j] == ExecutionStep(j, ordered[j - n], TemporaryToFinal)
    {
      steps := steps + [ExecutionStep(n + k, ordered[k], TemporaryToFinal)];
    }
  }

  lemma {:induction false} AscendingIsDuplicateFree(ids: seq<u64>)
    requires StrictlyAscending(ids)
    ensures forall id :: multiset(ids)[id] <= 1
    ensures forall id :: id > (if ids == [] then 0 else ids[|ids| - 1]) ==> multiset(ids)[id] == 0
  {
    if ids != [] {
      var front := ids[..|ids| - 1];
      assert ids == front + [ids[|ids| - 1]];
      AscendingIsDuplicateFree(front);
      assert multiset(ids) == multiset(front) + multiset{ids[|ids| - 1]};
      forall id | id >= ids[|ids| - 1] ensures id !in front {
      }
    }
  }

  lemma FirstDuplicate(ordered: seq<u64>, i: nat)
    requires 1 <= i < |ordered| && SortedBy(ordered, IdLe) && StrictlyAscending(ordered[..i])
    requires ordered[i - 1] == ordered[i]
    ensures multiset(ordered)[ordered[i]] >= 2
    ensures forall id :: id < ordered[i] ==> multiset(ordered)[id] <= 1
  {
    var front, rest := ordered[..i], ordered[i..];
    assert ordered == front + rest;
    assert multiset(ordered) == multiset(front) + multiset(rest);
    assert front[i - 1] in multiset(front) && rest[0] in multiset(rest);
    AscendingIsDuplicateFree(front);
    forall id | id < ordered[i] ensures id !in rest {
    }
  }

  /** Recovery rebuilds the schedule from the header: any order of the same sources gives the same steps. */
  lemma ScheduleIsCanonical(a: seq<u64>, b: seq<u64>, stepsA: seq<ExecutionStep>, stepsB: seq<ExecutionStep>)
    requires multiset(a) == multiset(b)
    requires IsScheduleOf(stepsA, a) && IsScheduleOf(stepsB, b)
    ensures stepsA == stepsB
  {
    var orderedA: seq<u64> :| StrictlyAscending(orderedA) && multiset(orderedA) == multiset(a) && IsTwoPhase(stepsA, orderedA);
    var orderedB: seq<u64> :| StrictlyAscending(orderedB) && multiset(orderedB) == multiset(b) && IsTwoPhase(stepsB, orderedB);
    assert orderedA == orderedB by {
      IdLeTotal();
      SortedIsCanonical(orderedA, orderedB, IdLe);
    }
    TwoPhaseIsDetermined(orderedA, stepsA, stepsB);
  }

  lemma TwoPhaseIsDetermined(ordered: seq<u64>, stepsA: seq<ExecutionStep>, stepsB: seq<ExecutionStep>)
    requires IsTwoPhase(stepsA, ordered) && IsTwoPhase(stepsB, ordered)
    ensures stepsA == stepsB
  {
  }
}
