/** The two-phase executor: announce a batch, rename without replacing, journal the completions, and
    walk back the steps taken when one fails. */
module Executor {
  import opened Primitives
  import opened Execution
  import opened Replay
  import opened RecordCodec
  import opened Frames
  import opened Machine
  import opened Appender
  import opened Transaction
  import opened Course

  type JournalOutcome = Result<(), JournalStorageErrorKind>

  /** The journal bytes are faithful, and whatever a crash leaves of them explains the tree. */
  ghost predicate SafeMoment(run: Run, m: Moment) {
    && Faithful(run.write, m) && run.Authored(m.written)
    && exists applied :: run.Reached(m.tree, applied) && Safe(run.Steps(), m.written, m.durable, applied)
  }

  ghost predicate SafeHistory(run: Run, history: seq<Moment>) {
    forall i :: 0 <= i < |history| ==> SafeMoment(run, history[i])
  }

  /** After `applied` steps the tree is exactly the one those steps lead to, every record list that can
      survive a crash explains it, and so it was at every earlier moment. */
  ghost predicate Sound(run: Run, now: Moment, history: seq<Moment>, applied: nat)
    ensures Sound(run, now, history, applied) ==> applied <= run.Steps()
  {
    var sealed := forall x {:trigger Unsealed(SoundSeal, x)} :: Unsealed(SoundSeal, x) ==> IsSound(run, now, history, applied);
    assert sealed ==> IsSound(run, now, history, applied) by { assert Unsealed(SoundSeal, 0); }
    sealed
  }

  ghost predicate IsSound(run: Run, now: Moment, history: seq<Moment>, applied: nat) {
    && run.Reached(now.tree, applied) && run.Authored(now.written)
    && Safe(run.Steps(), now.written, now.durable, applied)
    && SafeHistory(run, history)
  }

  /** The invariant of a run with `applied` steps taken. */
  ghost predicate Consistent(run: Run, journal: DurableAppender, applied: nat)
    reads journal, journal.sink
  {
    && journal.Valid()
    && journal.sink.parents == run.parents && journal.write == run.write
    && run.plan.Indexed()
    && journal.nextSequence >= 1
    && Sound(run, journal.sink.Now(), journal.sink.history, applied)
  }

  ghost predicate Settled(run: Run, journal: DurableAppender)
    reads journal, journal.sink
  {
    exists applied :: Consistent(run, journal, applied)
  }

  /** Everything in the journal, the last record included, is durable, and nothing follows it in the file. */
  ghost predicate Ended(journal: DurableAppender)
    requires journal.Valid()
    reads journal, journal.sink
  {
    journal.Accepted() == journal.sink.written && journal.sink.durable == |journal.sink.written| && journal.sink.torn == []
  }

  /** What each outcome promises about the tree and about the journal. */
  ghost predicate Concluded(run: Run, journal: DurableAppender, outcome: ExecutionOutcome)
    reads journal, journal.sink
    ensures Concluded(run, journal, outcome) ==> journal.Valid() && SafeHistory(run, journal.sink.history)
  {
    var sealed := forall x {:trigger Unsealed(ConcludedSeal, x)} :: Unsealed(ConcludedSeal, x) ==> Keeps(run, journal, outcome);
    assert sealed ==> journal.Valid() && SafeHistory(run, journal.sink.history) by {
      assert Unsealed(ConcludedSeal, 0) && Unsealed(SoundSeal, 0);
    }
    sealed
  }

  ghost predicate Keeps(run: Run, journal: DurableAppender, outcome: ExecutionOutcome)
    reads journal, journal.sink
  {
    Settled(run, journal) &&
    var status := Replayed(journal.Accepted());
    match outcome
    case Finished => Consistent(run, journal, run.Steps()) && status == Success(Completed) && Ended(journal)
    case TakenBack(cause) => Consistent(run, journal, 0) && status == Success(RolledBack(cause)) && Ended(journal)
    case NeedsRecovery(_, _, reason) =>
      && status.Success? && !status.value.Terminal() && Reported(journal.Accepted(), outcome)
      && (reason.RollbackFailed? ==> Ended(journal))
  }

  /** The replayed status is about the step that the outcome names. */
  predicate NamesStep(status: JournalStatus, direction: ExecutionDirection, step: nat) {
    || status == ReconciliationRequired(direction, step)
    || (direction == Forwards && status == ForwardPending(step))
    || (direction == Backwards && status.RollbackPending? && status.nextStep == step)
    || (direction == Backwards && status.RecoveryRequired? && status.failedStep == step)
  }

  /** An outcome that calls for recovery reports what replaying the journal will say. */
  ghost predicate Reported(records: seq<JournalRecord>, outcome: ExecutionOutcome)
    requires outcome.NeedsRecovery?
  {
    forall x {:trigger Unsealed(ReportSeal, x)} :: Unsealed(ReportSeal, x) ==> IsReported(Replayed(records), outcome)
  }

  ghost predicate IsReported(status: Result<JournalStatus, JournalReplayError>, outcome: ExecutionOutcome)
    requires outcome.NeedsRecovery?
  {
    match outcome.reason
    case AmbiguousFilesystem(kind) =>
      && IsAmbiguous(kind) && outcome.stepIndex.Some?
      && status == Success(ReconciliationRequired(outcome.direction, outcome.stepIndex.value))
    case RollbackFailed(kind) =>
      && !IsAmbiguous(kind) && outcome.direction == Backwards && outcome.stepIndex.Some?
      && status.Success? && status.value.RecoveryRequired? && status.value.failedStep == outcome.stepIndex.value
    case JournalFailed(_) =>
      outcome.stepIndex.Some? ==> status.Success? && NamesStep(status.value, outcome.direction, outcome.stepIndex.value)
    case InvalidFrozenPlan => true
  }

  /** A rollback is reported with its cause, be it complete or stuck. */
  ghost predicate Blames(records: seq<JournalRecord>, outcome: ExecutionOutcome, cause: RollbackCause) {
    forall x {:trigger UnsealedAt(ReportSeal, cause, x)} :: UnsealedAt(ReportSeal, cause, x) ==> IsBlamed(records, outcome, cause)
  }

  ghost predicate IsBlamed(records: seq<JournalRecord>, outcome: ExecutionOutcome, cause: RollbackCause) {
    match outcome
    case Finished => true
    case TakenBack(reported) => reported == cause
    case NeedsRecovery(_, step, reason) =>
      reason.RollbackFailed? ==> step.Some? && Replayed(records) == Success(RecoveryRequired(cause, step.value))
  }

  lemma NothingToReport(records: seq<JournalRecord>, outcome: ExecutionOutcome)
    requires IsInvalidPlan(outcome) || (outcome.NeedsRecovery? && outcome.reason.JournalFailed? && outcome.stepIndex.None?)
    ensures Reported(records, outcome)
  {
  }

  lemma ReportsForward(steps: nat, records: seq<JournalRecord>, applied: nat, next: nat, end: nat, outcome: ExecutionOutcome)
    requires Explained(steps, records, applied) && ForwardIn(records, next, end) && next < steps
    requires outcome.NeedsRecovery? && outcome.direction == Forwards && outcome.stepIndex == Some(next)
    requires outcome.reason.JournalFailed? || (next < end && outcome.reason.AmbiguousFilesystem? && IsAmbiguous(outcome.reason.fsKind))
    ensures Reported(records, outcome)
  {
    ForwardStatus(steps, records, applied, next, end);
  }

  lemma ReportsBackward(steps: nat, records: seq<JournalRecord>, applied: nat, cause: RollbackCause, k: nat, prepared: bool,
                        outcome: ExecutionOutcome)
    requires Explained(steps, records, applied) && RollbackIn(records, cause, k, prepared) && k > 0
    requires outcome.NeedsRecovery? && outcome.direction == Backwards && outcome.stepIndex == Some(k - 1)
    requires outcome.reason.JournalFailed? || (prepared && outcome.reason.AmbiguousFilesystem? && IsAmbiguous(outcome.reason.fsKind))
    ensures Reported(records, outcome)
  {
    RollbackStatus(steps, records, applied, cause, k, prepared);
  }

  lemma ReportsStuck(records: seq<JournalRecord>, cause: RollbackCause, step: nat, outcome: ExecutionOutcome)
    requires Replayed(records) == Success(RecoveryRequired(cause, step))
    requires outcome.NeedsRecovery? && outcome.direction == Backwards && outcome.stepIndex == Some(step)
    requires outcome.reason.JournalFailed? || (outcome.reason.RollbackFailed? && !IsAmbiguous(outcome.reason.fsKind))
    ensures Reported(records, outcome)
  {
  }

  lemma AcceptedIsExplained(run: Run, journal: DurableAppender, applied: nat)
    requires Consistent(run, journal, applied)
    ensures Explained(run.Steps(), journal.Accepted(), applied)
  {
    assert Unsealed(SoundSeal, 0);
  }

  lemma TreeIsReached(run: Run, journal: DurableAppender, k: nat)
    requires Consistent(run, journal, k)
    ensures journal.sink.tree == run.TreeAfter(k)
  {
    assert Unsealed(SoundSeal, 0);
  }

  /** One more record keeps everything sound if the longer journal explains the tree. */
  lemma AppendKeepsSound(run: Run, write: FrameWriter, was: Moment, now: Moment, record: JournalRecord,
                         h: seq<Moment>, h': seq<Moment>, applied: nat)
    requires Sound(run, was, h, applied)
    requires write == run.write && Extends(write, was, record, h, h') && MidAppend(write, was, record, now)
    requires Explained(run.Steps(), was.written + [record], applied) && (was.written == [] ==> record == run.header)
    requires BatchFits(record)
    ensures Sound(run, now, h', applied)
  {
    assert Unsealed(SoundSeal, 0);
    SafeExtended(run.Steps(), was.written, was.durable, applied, record);
    forall i | 0 <= i < |h'| ensures SafeMoment(run, h'[i]) {
      if i < |h| {
        assert h'[i] == h[i];
      } else {
        var m := h'[i];
        assert MidAppend(write, was, record, m);
        assert Safe(run.Steps(), m.written, m.durable, applied);
      }
    }
  }

  /** Nothing but a fault keeps the next `count` step records out of the journal. */
  ghost predicate Roomy(journal: DurableAppender, count: nat)
    reads journal
  {
    && !journal.poisoned && !journal.terminal
    && journal.nextSequence + count <= U64_MAX
    && WritesSteps(journal.write, journal.schemaVersion)
  }

  lemma StepsAreReady(journal: DurableAppender, record: JournalRecord)
    requires Roomy(journal, 1) && !record.TransactionStarted?
    requires record.ForwardBatchPrepared? ==> journal.schemaVersion >= JOURNAL_SCHEMA_VERSION
    ensures journal.Ready(record)
  {
    assert Unsealed(WritesSeal, 0);
  }

  /** Appends one record that explains the current tree and syncs the journal. */
  method Announce(journal: DurableAppender, record: JournalRecord, ghost run: Run, ghost applied: nat)
    returns (r: JournalOutcome)
    requires Consistent(run, journal, applied) && !record.TransactionStarted? && BatchFits(record)
    requires Explained(run.Steps(), journal.Accepted() + [record], applied)
    modifies journal, journal.sink
    ensures Consistent(run, journal, applied)
    ensures r.Success? ==> !journal.poisoned && journal.Accepted() == journal.sink.written == old(journal.Accepted()) + [record]
    ensures r.Success? ==> journal.sink.durable == |journal.sink.written|
    ensures r.Success? ==> (journal.terminal <==> IsTerminal(record))
    ensures r.Failure? ==> journal.Accepted() == old(journal.Accepted())
    ensures journal.sink.renames == old(journal.sink.renames)
    ensures if old(journal.Live()) then IsEntered(journal.Ahead(), old(journal.Behind()), journal.Behind(), record, true, r) else r.Failure?
    ensures journal.sink.Writable() && old(Roomy(journal, 1)) && (record.ForwardBatchPrepared? ==> journal.schemaVersion >= JOURNAL_SCHEMA_VERSION)
            ==> r.Success?
  {
    ghost var was, h := journal.sink.Now(), journal.sink.history;
    ghost var live := !journal.poisoned;
    assert live ==> journal.Accepted() == was.written;
    if Roomy(journal, 1) && (record.ForwardBatchPrepared? ==> journal.schemaVersion >= JOURNAL_SCHEMA_VERSION) {
      StepsAreReady(journal, record);
    }
    var appended := journal.Append(record);
    if live {
      AppendKeepsSound(run, journal.write, was, journal.sink.Now(), record, h, journal.sink.history, applied);
    }
    r := if appended.Success? then Success(()) else Failure(appended.error.kind);
  }

  /** Appends the completion of a step without a sync of its own. */
  method AnnounceCompletion(journal: DurableAppender, record: JournalRecord, ghost run: Run, ghost applied: nat)
    returns (r: JournalOutcome)
    requires record.ForwardStepCompleted? || record.RollbackStepCompleted?
    requires Consistent(run, journal, applied)
    requires Explained(run.Steps(), journal.Accepted() + [record], applied)
    modifies journal, journal.sink
    ensures Consistent(run, journal, applied)
    ensures r.Success? ==> !journal.poisoned && journal.Accepted() == journal.sink.written == old(journal.Accepted()) + [record]
    ensures r.Success? ==> journal.sink.durable == old(journal.sink.durable)
    ensures r.Success? ==> (journal.terminal <==> IsTerminal(record))
    ensures r.Failure? ==> journal.Accepted() == old(journal.Accepted())
    ensures journal.sink.renames == old(journal.sink.renames)
    ensures if old(journal.Live()) then IsEntered(journal.Ahead(), old(journal.Behind()), journal.Behind(), record, false, r) else r.Failure?
  {
    ghost var was, h := journal.sink.Now(), journal.sink.history;
    ghost var live := !journal.poisoned;
    assert live ==> journal.Accepted() == was.written;
    var appended := journal.AppendBufferedCompletion(record);
    if live {
      AppendKeepsSound(run, journal.write, was, journal.sink.Now(), record, h, journal.sink.history, applied);
    }
    r := if appended.Success? then Success(()) else Failure(appended.error.kind);
  }

  predicate IsInvalidPlan(outcome: ExecutionOutcome) {
    outcome.NeedsRecovery? && outcome.reason.InvalidFrozenPlan?
  }

  function InvalidPlan(direction: ExecutionDirection, stepIndex: Option<nat>): ExecutionOutcome {
    NeedsRecovery(direction, stepIndex, InvalidFrozenPlan)
  }

  function JournalRecovery(direction: ExecutionDirection, stepIndex: Option<nat>, kind: JournalStorageErrorKind): ExecutionOutcome {
    NeedsRecovery(direction, stepIndex, JournalFailed(kind))
  }

  // ---------------------------------------------------------------- rollback

  /** Taking step `k - 1` back, once that is announced, leaves everything sound. */
  lemma TakingBackIsSound(run: Run, was: Moment, now: Moment, h: seq<Moment>, k: nat)
    requires 0 < k && Sound(run, was, h, k)
    requires was.written != [] && was.durable == |was.written| && Explained(run.Steps(), was.written, k - 1)
    requires Faithful(run.write, was) && now == was.(tree := now.tree)
    requires var move := ForwardMove(run.plan, k - 1);
             move.Some? && Enabled(was.tree, run.parents, move.value.Reverse()) && now.tree == Moved(was.tree, move.value.Reverse())
    ensures Sound(run, now, h + [now], k - 1)
  {
    assert Unsealed(SoundSeal, 0);
    assert run.StepPossible(k - 1);
    ReverseUndoes(run.TreeAfter(k - 1), run.parents, ForwardMove(run.plan, k - 1).value);
    SafeSynced(run.Steps(), was.written, k - 1);
    FaithIgnoresTree(run.write, was, now.tree);
    assert SafeMoment(run, now);
  }

  lemma StandingStillIsSound(run: Run, now: Moment, h: seq<Moment>, k: nat)
    requires Sound(run, now, h, k) && Faithful(run.write, now)
    ensures Sound(run, now, h + [now], k)
  {
    assert Unsealed(SoundSeal, 0);
    assert SafeMoment(run, now);
  }

  lemma RecoveryIsDue(run: Run, journal: DurableAppender, applied: nat, outcome: ExecutionOutcome)
    requires Consistent(run, journal, applied) && outcome.NeedsRecovery? && Pending(journal.Accepted())
    requires Reported(journal.Accepted(), outcome) && (outcome.reason.RollbackFailed? ==> Ended(journal))
    ensures Concluded(run, journal, outcome)
  {
    AcceptedIsExplained(run, journal, applied);
    assert Unsealed(ExplainedSeal, 0) && Unsealed(PendingSeal, 0);
  }

  lemma TakenBackIsEarned(run: Run, journal: DurableAppender, cause: RollbackCause)
    requires Consistent(run, journal, 0) && Replayed(journal.Accepted()) == Success(RolledBack(cause)) && Ended(journal)
    ensures Concluded(run, journal, TakenBack(cause))
  {
  }

  lemma FinishedIsEarned(run: Run, journal: DurableAppender)
    requires Consistent(run, journal, run.Steps()) && Replayed(journal.Accepted()) == Success(Completed) && Ended(journal)
    ensures Concluded(run, journal, ExecutionOutcome.Finished)
  {
  }

  method CompleteRollback(journal: DurableAppender, cause: RollbackCause, ghost run: Run, ghost aim: ExecutionOutcome)
    returns (outcome: ExecutionOutcome)
    requires Consistent(run, journal, 0) && RollbackIn(journal.Accepted(), cause, 0, false)
    requires journal.Live() ==> Backs(run, journal.Ahead(), journal.Behind(), 0, cause, aim)
    modifies journal, journal.sink
    ensures Concluded(run, journal, outcome) && !IsInvalidPlan(outcome) && outcome != ExecutionOutcome.Finished
    ensures Blames(journal.Accepted(), outcome, cause)
    ensures old(journal.Live()) ==> outcome == aim
  {
    AcceptedIsExplained(run, journal, 0);
    RollbackEnds(run.Steps(), journal.Accepted(), cause);
    ghost var live, fates, spent := journal.Live(), journal.Ahead(), journal.Behind();
    var r := Announce(journal, TransactionRolledBack, run, 0);
    if live {
      BackIsDone(run, fates, spent, cause, journal.Behind(), r, aim);
    }
    if r.Success? {
      outcome := TakenBack(cause);
      TakenBackIsEarned(run, journal, cause);
    } else {
      outcome := JournalRecovery(Backwards, None, r.error);
      NothingToReport(journal.Accepted(), outcome);
      RecoveryIsDue(run, journal, 0, outcome);
    }
  }

  /** Whatever stands in the way of taking back a step that was taken, it is not the tree. */
  lemma TakingBackIsPossible(run: Run, journal: DurableAppender, k: nat, move: Move)
    requires Consistent(run, journal, k) && k > 0 && ForwardMove(run.plan, k - 1) == Some(move)
    ensures Enabled(journal.sink.tree, run.parents, move.Reverse())
  {
    assert Unsealed(SoundSeal, 0);
    assert run.StepPossible(k - 1);
    ReverseUndoes(run.TreeAfter(k - 1), run.parents, move);
  }

  /** Takes step `k - 1` back: announced, renamed without replacing, completed. */
  method RollbackStep(plan: PlanView, journal: DurableAppender, cause: RollbackCause, k: nat, ghost run: Run, ghost aim: ExecutionOutcome)
    returns (stop: Option<ExecutionOutcome>)
    requires run.plan == plan && Consistent(run, journal, k) && k > 0
    requires RollbackIn(journal.Accepted(), cause, k, false)
    requires journal.Live() ==> Backs(run, journal.Ahead(), journal.Behind(), k, cause, aim)
    modifies journal, journal.sink
    ensures stop.None? ==> Consistent(run, journal, k - 1) && RollbackIn(journal.Accepted(), cause, k - 1, false)
    ensures stop.Some? ==> Concluded(run, journal, stop.value) && stop.value.NeedsRecovery?
    ensures plan.Complete() && stop.Some? ==> !IsInvalidPlan(stop.value)
    ensures stop.None? ==> journal.Live() && Backs(run, journal.Ahead(), journal.Behind(), k - 1, cause, aim)
    ensures stop.Some? && old(journal.Live()) ==> stop.value == aim
    ensures stop.Some? ==> Blames(journal.Accepted(), stop.value, cause)
  {
    var step := plan.schedule[k - 1];
    AcceptedIsExplained(run, journal, k);
    RollbackPrepares(run.Steps(), journal.Accepted(), cause, k);
    ghost var live, fates, spent := journal.Live(), journal.Ahead(), journal.Behind();
    var prepared := Announce(journal, RollbackStepPrepared(step.index), run, k);
    if live {
      BackIsAnnounced(run, fates, spent, k, cause, journal.Behind(), prepared, aim);
    }
    if prepared.Failure? {
      var outcome := JournalRecovery(Backwards, Some(step.index), prepared.error);
      ReportsBackward(run.Steps(), journal.Accepted(), k, cause, k, false, outcome);
      RecoveryIsDue(run, journal, k, outcome);
      return Some(outcome);
    }
    var entry := plan.Entry(step.sourceId);
    if entry.None? || entry.value.journalEntry.parentExecutionIdentity.None? {
      assert ForwardMove(plan, k - 1).None?;
      var outcome := InvalidPlan(Backwards, Some(step.index));
      NothingToReport(journal.Accepted(), outcome);
      RecoveryIsDue(run, journal, k, outcome);
      return Some(outcome);
    }
    stop := TakeBack(plan, journal, cause, k, entry.value, run, aim);
  }

  /** The rename that takes step `k - 1` back. */
  method TakeBack(plan: PlanView, journal: DurableAppender, cause: RollbackCause, k: nat, entry: FrozenEntry,
                  ghost run: Run, ghost aim: ExecutionOutcome)
    returns (stop: Option<ExecutionOutcome>)
    requires run.plan == plan && Consistent(run, journal, k) && k > 0
    requires RollbackIn(journal.Accepted(), cause, k, true)
    requires journal.Live() && MovesBack(run, journal.Ahead(), journal.Behind(), k, cause, aim)
    requires journal.sink.durable == |journal.sink.written| && Explained(run.Steps(), journal.sink.written, k - 1)
    requires plan.Entry(plan.schedule[k - 1].sourceId) == Some(entry) && entry.journalEntry.parentExecutionIdentity.Some?
    modifies journal, journal.sink
    ensures stop.None? ==> Consistent(run, journal, k - 1) && RollbackIn(journal.Accepted(), cause, k - 1, false)
    ensures stop.Some? ==> Concluded(run, journal, stop.value) && stop.value.NeedsRecovery? && !IsInvalidPlan(stop.value)
    ensures if stop.None? then journal.Live() && Backs(run, journal.Ahead(), journal.Behind(), k - 1, cause, aim) else stop.value == aim
    ensures stop.Some? ==> Blames(journal.Accepted(), stop.value, cause)
  {
    var e := entry.journalEntry;
    var (source, target) := RollbackNames(e, plan.schedule[k - 1].phase);
    var move := Move(entry.parent, source, target, e.parentExecutionIdentity.value, e.executionIdentity);
    RollbackMoveIsReverse(plan, k - 1);
    TreeIsReached(run, journal, k);
    TakingBackIsPossible(run, journal, k, ForwardMove(plan, k - 1).value);
    ghost var was, h, spent := journal.sink.Now(), journal.sink.history, journal.Behind();
    var renamed := journal.sink.RenameNoReplaceInParent(move);
    BackIsTried(run, journal.Ahead(), spent, k, cause, renamed, aim);
    ghost var now := journal.sink.Now();
    FaithIgnoresTree(run.write, was, now.tree);
    ghost var applied := if renamed.Success? || now.tree != was.tree then k - 1 else k;
    if applied == k {
      StandingStillIsSound(run, now, h, k);
    } else {
      TakingBackIsSound(run, was, now, h, k);
    }
    stop := AfterRollback(journal, cause, k, renamed, run, applied, aim);
  }

  /** Journals what became of the rename that was to take step `k - 1` back. */
  method AfterRollback(journal: DurableAppender, cause: RollbackCause, k: nat,
                       renamed: Result<ExecutionIdentity, ExecutionFsErrorKind>, ghost run: Run, ghost applied: nat,
                       ghost aim: ExecutionOutcome)
    returns (stop: Option<ExecutionOutcome>)
    requires 0 < k <= USIZE_MAX && journal.Live() && HasMovedBack(run, journal.Ahead(), journal.Behind(), k, cause, renamed, aim)
    requires renamed.Success? ==> applied == k - 1
    requires renamed.Failure? && !IsAmbiguous(renamed.error) ==> applied == k
    requires Consistent(run, journal, applied)
    requires RollbackIn(journal.Accepted(), cause, k, true)
    modifies journal, journal.sink
    ensures stop.None? ==> Consistent(run, journal, k - 1) && RollbackIn(journal.Accepted(), cause, k - 1, false)
    ensures stop.Some? ==> Concluded(run, journal, stop.value) && stop.value.NeedsRecovery? && !IsInvalidPlan(stop.value)
    ensures if stop.None? then journal.Live() && Backs(run, journal.Ahead(), journal.Behind(), k - 1, cause, aim) else stop.value == aim
    ensures stop.Some? ==> Blames(journal.Accepted(), stop.value, cause)
    ensures renamed.Failure? && IsAmbiguous(renamed.error) ==>
              && stop == Some(NeedsRecovery(Backwards, Some(k - 1), AmbiguousFilesystem(renamed.error)))
              && journal.Accepted() == old(journal.Accepted())
    ensures renamed.Failure? && !IsAmbiguous(renamed.error) && journal.sink.Writable() && old(Roomy(journal, 1)) ==>
              && stop == Some(NeedsRecovery(Backwards, Some(k - 1), RollbackFailed(renamed.error)))
              && journal.Accepted() == old(journal.Accepted()) + [RollbackStepFailed(k - 1)]
              && Replayed(journal.Accepted()) == Success(RecoveryRequired(cause, k - 1))
  {
    var index := k - 1;
    ghost var fates, spent := journal.Ahead(), journal.Behind();
    AcceptedIsExplained(run, journal, applied);
    if renamed.Failure? && IsAmbiguous(renamed.error) {
      stop := Some(NeedsRecovery(Backwards, Some(index), AmbiguousFilesystem(renamed.error)));
      BackIsInDoubt(run, fates, spent, k, cause, renamed.error, aim);
      ReportsBackward(run.Steps(), journal.Accepted(), applied, cause, k, true, stop.value);
      RecoveryIsDue(run, journal, applied, stop.value);
    } else if renamed.Failure? {
      RollbackFails(run.Steps(), journal.Accepted(), cause, k, applied);
      var failed := Announce(journal, RollbackStepFailed(index), run, k);
      BackFails(run, fates, spent, k, cause, renamed.error, journal.Behind(), failed, aim);
      stop := Some(NeedsRecovery(Backwards, Some(index),
                                 if failed.Success? then RollbackFailed(renamed.error) else JournalFailed(failed.error)));
      if failed.Success? {
        ReportsStuck(journal.Accepted(), cause, index, stop.value);
      } else {
        ReportsBackward(run.Steps(), journal.Accepted(), applied, cause, k, true, stop.value);
      }
      RecoveryIsDue(run, journal, k, stop.value);
    } else {
      RollbackSteps(run.Steps(), journal.Accepted(), cause, k, applied, renamed.value);
      var completed := AnnounceCompletion(journal, RollbackStepCompleted(index, renamed.value), run, k - 1);
      BackSucceeds(run, fates, spent, k, cause, renamed.value, journal.Behind(), completed, aim);
      stop := None;
      if completed.Failure? {
        stop := Some(JournalRecovery(Backwards, Some(index), completed.error));
        ReportsBackward(run.Steps(), journal.Accepted(), applied, cause, k, true, stop.value);
        RecoveryIsDue(run, journal, k - 1, stop.value);
      }
    }
  }

  /** Walks the schedule back from step `nextStep` to the first. */
  method ContinueRollback(plan: PlanView, journal: DurableAppender, nextStep: nat, cause: RollbackCause, ghost run: Run,
                          ghost aim: ExecutionOutcome)
    returns (outcome: ExecutionOutcome)
    requires run.plan == plan && Settled(run, journal) && Pending(journal.Accepted())
    requires nextStep < |plan.schedule| ==>
               Consistent(run, journal, nextStep + 1) && RollbackIn(journal.Accepted(), cause, nextStep + 1, false)
    requires nextStep < |plan.schedule| && journal.Live() ==> Backs(run, journal.Ahead(), journal.Behind(), nextStep + 1, cause, aim)
    modifies journal, journal.sink
    ensures Concluded(run, journal, outcome)
    ensures nextStep < |plan.schedule| && plan.Complete() ==> !IsInvalidPlan(outcome)
    ensures Blames(journal.Accepted(), outcome, cause)
    ensures outcome != ExecutionOutcome.Finished
    ensures nextStep < |plan.schedule| && old(journal.Live()) ==> outcome == aim
  {
    if nextStep >= |plan.schedule| {
      outcome := InvalidPlan(Backwards, Some(nextStep));
      NothingToReport(journal.Accepted(), outcome);
      ghost var applied :| Consistent(run, journal, applied);
      RecoveryIsDue(run, journal, applied, outcome);
      return;
    }
    var stop := WalkBack(plan, journal, nextStep + 1, cause, run, aim);
    if stop.Some? {
      return stop.value;
    }
    outcome := CompleteRollback(journal, cause, run, aim);
  }

  /** Takes the first `count` steps back, the last of them first. */
  method WalkBack(plan: PlanView, journal: DurableAppender, count: nat, cause: RollbackCause, ghost run: Run, ghost aim: ExecutionOutcome)
    returns (stop: Option<ExecutionOutcome>)
    requires run.plan == plan && Consistent(run, journal, count) && RollbackIn(journal.Accepted(), cause, count, false)
    requires journal.Live() ==> Backs(run, journal.Ahead(), journal.Behind(), count, cause, aim)
    modifies journal, journal.sink
    ensures stop.None? ==> Consistent(run, journal, 0) && RollbackIn(journal.Accepted(), cause, 0, false)
    ensures stop.Some? ==> Concluded(run, journal, stop.value) && stop.value.NeedsRecovery?
    ensures plan.Complete() && stop.Some? ==> !IsInvalidPlan(stop.value)
    ensures stop.None? && journal.Live() ==> Backs(run, journal.Ahead(), journal.Behind(), 0, cause, aim)
    ensures stop.None? && old(journal.Live()) ==> journal.Live()
    ensures stop.Some? && old(journal.Live()) ==> stop.value == aim
    ensures stop.Some? ==> Blames(journal.Accepted(), stop.value, cause)
  {
    var k := count;
    while k > 0
      invariant 0 <= k <= count
      invariant Consistent(run, journal, k) && RollbackIn(journal.Accepted(), cause, k, false)
      invariant journal.Live() ==> Backs(run, journal.Ahead(), journal.Behind(), k, cause, aim)
      invariant old(journal.Live()) ==> journal.Live()
    {
      stop := RollbackStep(plan, journal, cause, k, run, aim);
      if stop.Some? {
        return;
      }
      k := k - 1;
    }
    return None;
  }

  method StartRollback(plan: PlanView, journal: DurableAppender, completedCount: nat, cause: RollbackCause,
                       ghost run: Run, ghost end: nat, ghost aim: ExecutionOutcome)
    returns (outcome: ExecutionOutcome)
    requires run.plan == plan && Consistent(run, journal, completedCount)
    requires journal.Live() ==> Undoes(run, journal.Ahead(), journal.Behind(), completedCount, cause, aim)
    requires ForwardIn(journal.Accepted(), completedCount, end)
    requires RollbackAdmitted(cause, completedCount, Range(completedCount, end)).Success?
    modifies journal, journal.sink
    ensures Concluded(run, journal, outcome)
    ensures plan.Complete() ==> !IsInvalidPlan(outcome)
    ensures Blames(journal.Accepted(), outcome, cause)
    ensures outcome != ExecutionOutcome.Finished
    ensures old(journal.Live()) ==> outcome == aim
  {
    AcceptedIsExplained(run, journal, completedCount);
    RollbackBegins(run.Steps(), journal.Accepted(), cause, completedCount, end);
    ghost var live, fates, spent := journal.Live(), journal.Ahead(), journal.Behind();
    var r := Announce(journal, RollbackStarted(cause), run, completedCount);
    if live {
      UndoIsAnnounced(run, fates, spent, completedCount, cause, journal.Behind(), r, aim);
    }
    if r.Failure? {
      outcome := JournalRecovery(Backwards, None, r.error);
      NothingToReport(journal.Accepted(), outcome);
      RecoveryIsDue(run, journal, completedCount, outcome);
    } else if completedCount == 0 {
      outcome := CompleteRollback(journal, cause, run, aim);
    } else {
      outcome := ContinueRollback(plan, journal, completedCount - 1, cause, run, aim);
    }
  }

  // ---------------------------------------------------------------- forward

  /** Inside an announced batch that ends before step `end`, with `k` steps taken. */
  ghost predicate OpenAt(run: Run, journal: DurableAppender, k: nat, end: nat)
    reads journal, journal.sink
  {
    && Consistent(run, journal, k)
    && journal.Live()
    && journal.Accepted() == journal.sink.written
    && BatchOpen(run.Steps(), journal.sink.written, journal.sink.durable, k, end)
    && ForwardIn(journal.Accepted(), k, end)
  }

  lemma TakingAStepIsSound(run: Run, was: Moment, now: Moment, h: seq<Moment>, k: nat, end: nat)
    requires Sound(run, was, h, k) && k < end
    requires BatchOpen(run.Steps(), was.written, was.durable, k, end)
    requires Faithful(run.write, was) && now == was.(tree := now.tree)
    requires end <= run.Steps()
    requires var move := ForwardMove(run.plan, k);
             move.Some? && Enabled(was.tree, run.parents, move.value) && now.tree == Moved(was.tree, move.value)
    ensures Sound(run, now, h + [now], k + 1)
  {
    assert Unsealed(SoundSeal, 0);
    assert run.StepPossible(k);
    BatchIsSafe(run.Steps(), was.written, was.durable, k, end, k + 1);
    FaithIgnoresTree(run.write, was, now.tree);
    assert SafeMoment(run, now);
  }

  /** Takes step `k` of an announced batch, or rolls back. */
  method ForwardStep(plan: PlanView, journal: DurableAppender, k: nat, end: nat, ghost shouldCancel: nat -> bool, ghost run: Run,
                     ghost aim: ExecutionOutcome)
    returns (stop: Option<ExecutionOutcome>)
    requires run.plan == plan && k < end <= |plan.schedule| && OpenAt(run, journal, k, end)
    requires !shouldCancel(k) && TakesOn(run, journal.Ahead(), journal.Behind(), k, end, shouldCancel, aim)
    modifies journal, journal.sink
    ensures stop.None? ==> OpenAt(run, journal, k + 1, end)
    ensures stop.Some? ==> Concluded(run, journal, stop.value) && stop.value != ExecutionOutcome.Finished
    ensures stop.Some? ==> Blames(journal.Accepted(), stop.value, ForwardStepFailed(k))
    ensures plan.Complete() && stop.Some? ==> !IsInvalidPlan(stop.value)
    ensures if stop.None? then TakesOn(run, journal.Ahead(), journal.Behind(), k + 1, end, shouldCancel, aim) else stop.value == aim
  {
    var step := plan.schedule[k];
    var entry := plan.Entry(step.sourceId);
    if entry.None? || entry.value.journalEntry.parentExecutionIdentity.None? {
      assert ForwardMove(plan, k).None?;
      TakeIsInvalid(run, journal.Ahead(), journal.Behind(), k, end, shouldCancel, aim);
      stop := Some(InvalidPlan(Forwards, Some(step.index)));
      NothingToReport(journal.Accepted(), stop.value);
      RecoveryIsDue(run, journal, k, stop.value);
      return;
    }
    var e := entry.value.journalEntry;
    var (source, target) := ForwardNames(e, step.phase);
    var move := Move(entry.value.parent, source, target, e.parentExecutionIdentity.value, e.executionIdentity);
    assert ForwardMove(plan, k) == Some(move);
    stop := MakeMove(plan, journal, k, end, move, shouldCancel, run, aim);
  }

  /** The rename of step `k`. */
  method MakeMove(plan: PlanView, journal: DurableAppender, k: nat, end: nat, move: Move, ghost shouldCancel: nat -> bool,
                  ghost run: Run, ghost aim: ExecutionOutcome)
    returns (stop: Option<ExecutionOutcome>)
    requires run.plan == plan && k < end <= |plan.schedule| && OpenAt(run, journal, k, end)
    requires !shouldCancel(k) && TakesOn(run, journal.Ahead(), journal.Behind(), k, end, shouldCancel, aim) && ForwardMove(plan, k) == Some(move)
    modifies journal, journal.sink
    ensures stop.None? ==> OpenAt(run, journal, k + 1, end)
    ensures stop.Some? ==> Concluded(run, journal, stop.value) && stop.value != ExecutionOutcome.Finished
    ensures stop.Some? ==> Blames(journal.Accepted(), stop.value, ForwardStepFailed(k))
    ensures plan.Complete() && stop.Some? ==> !IsInvalidPlan(stop.value)
    ensures if stop.None? then TakesOn(run, journal.Ahead(), journal.Behind(), k + 1, end, shouldCancel, aim) else stop.value == aim
  {
    TreeIsReached(run, journal, k);
    ghost var was, h, spent := journal.sink.Now(), journal.sink.history, journal.Behind();
    var renamed := journal.sink.RenameNoReplaceInParent(move);
    TakeIsTried(run, journal.Ahead(), spent, k, end, shouldCancel, renamed, aim);
    ghost var now := journal.sink.Now();
    FaithIgnoresTree(run.write, was, now.tree);
    ghost var applied := if renamed.Success? || now.tree != was.tree then k + 1 else k;
    if applied == k {
      StandingStillIsSound(run, now, h, k);
    } else {
      TakingAStepIsSound(run, was, now, h, k, end);
    }
    stop := AfterForward(plan, journal, k, end, shouldCancel, renamed, run, applied, aim);
  }

  /** Journals what became of the rename of step `k`. */
  method AfterForward(plan: PlanView, journal: DurableAppender, k: nat, end: nat, ghost shouldCancel: nat -> bool,
                      renamed: Result<ExecutionIdentity, ExecutionFsErrorKind>, ghost run: Run, ghost applied: nat,
                      ghost aim: ExecutionOutcome)
    returns (stop: Option<ExecutionOutcome>)
    requires run.plan == plan && k < end <= |plan.schedule|
    requires renamed.Success? ==> applied == k + 1
    requires renamed.Failure? && !IsAmbiguous(renamed.error) ==> applied == k
    requires Consistent(run, journal, applied) && journal.Live() && journal.Accepted() == journal.sink.written
    requires HasMovedOn(run, journal.Ahead(), journal.Behind(), k, end, shouldCancel, renamed, aim)
    requires BatchOpen(run.Steps(), journal.sink.written, journal.sink.durable, k, end) && ForwardIn(journal.Accepted(), k, end)
    modifies journal, journal.sink
    ensures stop.None? ==> OpenAt(run, journal, k + 1, end)
    ensures stop.Some? ==> Concluded(run, journal, stop.value) && stop.value != ExecutionOutcome.Finished
    ensures stop.Some? ==> Blames(journal.Accepted(), stop.value, ForwardStepFailed(k))
    ensures plan.Complete() && stop.Some? ==> !IsInvalidPlan(stop.value)
    ensures if stop.None? then TakesOn(run, journal.Ahead(), journal.Behind(), k + 1, end, shouldCancel, aim) else stop.value == aim
    ensures renamed.Failure? && IsAmbiguous(renamed.error) ==>
              && stop == Some(NeedsRecovery(Forwards, Some(k), AmbiguousFilesystem(renamed.error)))
              && journal.Accepted() == old(journal.Accepted())
  {
    var index := k;
    ghost var fates, spent := journal.Ahead(), journal.Behind();
    if renamed.Failure? {
      TakeFails(run, fates, spent, k, end, shouldCancel, renamed.error, aim);
    }
    if renamed.Failure? && IsAmbiguous(renamed.error) {
      stop := Some(NeedsRecovery(Forwards, Some(index), AmbiguousFilesystem(renamed.error)));
      AcceptedIsExplained(run, journal, applied);
      ReportsForward(run.Steps(), journal.Accepted(), applied, k, end, stop.value);
      RecoveryIsDue(run, journal, applied, stop.value);
    } else if renamed.Failure? {
      assert Range(k, end)[0] == k;
      var outcome := StartRollback(plan, journal, k, ForwardStepFailed(index), run, end, aim);
      stop := Some(outcome);
    } else {
      var record := ForwardStepCompleted(index, renamed.value);
      BatchAdvances(run.Steps(), journal.sink.written, journal.sink.durable, k, end, record);
      var completed := AnnounceCompletion(journal, record, run, k + 1);
      TakeSucceeds(run, fates, spent, k, end, shouldCancel, renamed.value, journal.Behind(), completed, aim);
      stop := None;
      if completed.Failure? {
        stop := Some(JournalRecovery(Forwards, Some(index), completed.error));
        AcceptedIsExplained(run, journal, k + 1);
        ReportsForward(run.Steps(), journal.Accepted(), k + 1, k, end, stop.value);
        RecoveryIsDue(run, journal, k + 1, stop.value);
      }
    }
  }

  /** A rollback is started because somebody cancels or because a rename fails. */
  ghost predicate IsCause(cause: RollbackCause, first: nat, end: nat, shouldCancel: nat -> bool) {
    match cause
    case Cancelled => exists i :: first <= i < end && shouldCancel(i)
    case ForwardStepFailed(step) => first <= step < end && !shouldCancel(step)
    case RecoveryRequested => false
  }

  /** A rollback, be it complete or stuck, was started for such a cause. */
  ghost predicate HasCause(records: seq<JournalRecord>, outcome: ExecutionOutcome, first: nat, end: nat, shouldCancel: nat -> bool) {
    forall x {:trigger UnsealedAt(ReportSeal, outcome, x)} :: UnsealedAt(ReportSeal, outcome, x) ==>
      (outcome.TakenBack? || (outcome.NeedsRecovery? && outcome.reason.RollbackFailed?) ==>
         exists cause :: Blames(records, outcome, cause) && IsCause(cause, first, end, shouldCancel))
  }

  /** Nothing to blame. */
  lemma NoCauseIsNeeded(records: seq<JournalRecord>, outcome: ExecutionOutcome, first: nat, end: nat, shouldCancel: nat -> bool)
    requires !outcome.TakenBack? && (outcome.NeedsRecovery? ==> !outcome.reason.RollbackFailed?)
    ensures HasCause(records, outcome, first, end, shouldCancel)
  {
  }

  lemma CausesSpread(records: seq<JournalRecord>, outcome: ExecutionOutcome, first: nat, end: nat, from: nat, to: nat, shouldCancel: nat -> bool)
    requires HasCause(records, outcome, first, end, shouldCancel) && from <= first && end <= to
    ensures HasCause(records, outcome, from, to, shouldCancel)
  {
    assert UnsealedAt(ReportSeal, outcome, 0);
    if outcome.TakenBack? || (outcome.NeedsRecovery? && outcome.reason.RollbackFailed?) {
      var cause :| Blames(records, outcome, cause) && IsCause(cause, first, end, shouldCancel);
      assert IsCause(cause, from, to, shouldCancel);
    }
  }

  lemma BlameIsCause(records: seq<JournalRecord>, outcome: ExecutionOutcome, k: nat, first: nat, end: nat, shouldCancel: nat -> bool)
    requires first <= k < end && k <= USIZE_MAX && Blames(records, outcome, if shouldCancel(k) then Cancelled else ForwardStepFailed(k))
    ensures HasCause(records, outcome, first, end, shouldCancel)
  {
    var cause := if shouldCancel(k) then Cancelled else ForwardStepFailed(k);
    assert IsCause(cause, first, end, shouldCancel);
  }

  /** Looks whether to cancel, and takes step `k` otherwise. */
  method CancelOrStep(plan: PlanView, journal: DurableAppender, k: nat, end: nat, shouldCancel: nat -> bool,
                      ghost run: Run, ghost aim: ExecutionOutcome)
    returns (stop: Option<ExecutionOutcome>)
    requires run.plan == plan && k < end <= |plan.schedule| && OpenAt(run, journal, k, end)
    requires TakesOn(run, journal.Ahead(), journal.Behind(), k, end, shouldCancel, aim)
    modifies journal, journal.sink
    ensures stop.None? ==> OpenAt(run, journal, k + 1, end) && !shouldCancel(k)
    ensures stop.Some? ==> Concluded(run, journal, stop.value) && stop.value != ExecutionOutcome.Finished
    ensures plan.Complete() && stop.Some? ==> !IsInvalidPlan(stop.value)
    ensures stop.Some? ==> Blames(journal.Accepted(), stop.value, if shouldCancel(k) then Cancelled else ForwardStepFailed(k))
    ensures if stop.None? then TakesOn(run, journal.Ahead(), journal.Behind(), k + 1, end, shouldCancel, aim) else stop.value == aim
  {
    if shouldCancel(k) {
      TakeIsCancelled(run, journal.Ahead(), journal.Behind(), k, end, shouldCancel, aim);
      var outcome := StartRollback(plan, journal, k, Cancelled, run, end, aim);
      return Some(outcome);
    }
    stop := ForwardStep(plan, journal, k, end, shouldCancel, run, aim);
  }

  /** The steps of one announced batch. */
  method ForwardBatch(plan: PlanView, journal: DurableAppender, first: nat, end: nat, shouldCancel: nat -> bool,
                      ghost run: Run, ghost aim: ExecutionOutcome)
    returns (stop: Option<ExecutionOutcome>)
    requires run.plan == plan && first < end <= |plan.schedule| && OpenAt(run, journal, first, end)
    requires TakesOn(run, journal.Ahead(), journal.Behind(), first, end, shouldCancel, aim)
    modifies journal, journal.sink
    ensures stop.None? ==> OpenAt(run, journal, end, end)
    ensures stop.Some? ==> Concluded(run, journal, stop.value) && stop.value != ExecutionOutcome.Finished
    ensures plan.Complete() && stop.Some? ==> !IsInvalidPlan(stop.value)
    ensures stop.None? ==> forall i :: first <= i < end ==> !shouldCancel(i)
    ensures stop.Some? ==> HasCause(journal.Accepted(), stop.value, first, end, shouldCancel)
    ensures if stop.None? then TakesOn(run, journal.Ahead(), journal.Behind(), end, end, shouldCancel, aim) else stop.value == aim
  {
    for k := first to end
      invariant OpenAt(run, journal, k, end)
      invariant forall i :: first <= i < k ==> !shouldCancel(i)
      invariant TakesOn(run, journal.Ahead(), journal.Behind(), k, end, shouldCancel, aim)
    {
      stop := CancelOrStep(plan, journal, k, end, shouldCancel, run, aim);
      if stop.Some? {
        BlameIsCause(journal.Accepted(), stop.value, k, first, end, shouldCancel);
        return;
      }
      assert OpenAt(run, journal, k + 1, end);
    }
    stop := None;
  }

  method CompleteTransaction(journal: DurableAppender, ghost shouldCancel: nat -> bool, ghost run: Run, ghost aim: ExecutionOutcome)
    returns (outcome: ExecutionOutcome)
    requires Consistent(run, journal, run.Steps()) && ForwardIn(journal.Accepted(), run.Steps(), run.Steps())
    requires journal.Live() ==> Goes(run, journal.Ahead(), journal.Behind(), run.Steps(), shouldCancel, aim)
    modifies journal, journal.sink
    ensures Concluded(run, journal, outcome) && !IsInvalidPlan(outcome)
    ensures outcome.Finished? || (outcome.NeedsRecovery? && outcome.reason.JournalFailed?)
    ensures old(journal.Live()) ==> outcome == aim
  {
    AcceptedIsExplained(run, journal, run.Steps());
    ForwardEnds(run.Steps(), journal.Accepted());
    ghost var live, fates, spent := journal.Live(), journal.Ahead(), journal.Behind();
    var r := Announce(journal, TransactionCompleted, run, run.Steps());
    if live {
      GoIsDone(run, fates, spent, shouldCancel, journal.Behind(), r, aim);
    }
    if r.Success? {
      outcome := ExecutionOutcome.Finished;
      FinishedIsEarned(run, journal);
    } else {
      outcome := JournalRecovery(Forwards, None, r.error);
      NothingToReport(journal.Accepted(), outcome);
      RecoveryIsDue(run, journal, run.Steps(), outcome);
    }
  }

  function ForwardBatchSize(schemaVersion: u16): (r: nat)
    ensures 1 <= r <= FORWARD_JOURNAL_BATCH_STEPS
  {
    if schemaVersion >= 6 then FORWARD_JOURNAL_BATCH_STEPS else 1
  }

  /** A single step is announced as such, more as a batch. */
  method AppendForwardBatch(journal: DurableAppender, first: usize, count: usize, ghost shouldCancel: nat -> bool, ghost run: Run,
                            ghost aim: ExecutionOutcome)
    returns (r: JournalOutcome)
    requires Consistent(run, journal, first) && ForwardIn(journal.Accepted(), first, first)
    requires 0 < count <= FORWARD_JOURNAL_BATCH_STEPS && first + count <= run.Steps()
    requires first + count == BatchEnd(journal.schemaVersion, first, run.Steps())
    requires journal.Live() ==> Goes(run, journal.Ahead(), journal.Behind(), first, shouldCancel, aim)
    requires count > 1 ==> journal.schemaVersion >= JOURNAL_SCHEMA_VERSION
    modifies journal, journal.sink
    ensures r.Success? ==> OpenAt(run, journal, first, first + count)
    ensures r.Success? ==> TakesOn(run, journal.Ahead(), journal.Behind(), first, first + count, shouldCancel, aim)
    ensures r.Failure? ==> Consistent(run, journal, first) && journal.Accepted() == old(journal.Accepted())
    ensures r.Failure? && old(journal.Live()) ==> JournalRecovery(Forwards, Some(first), r.error) == aim
  {
    var record := if count == 1 then ForwardStepPrepared(first) else ForwardBatchPrepared(first, count);
    AcceptedIsExplained(run, journal, first);
    BatchOpens(run.Steps(), journal.Accepted(), record, first, count);
    ghost var live, fates, spent := journal.Live(), journal.Ahead(), journal.Behind();
    r := Announce(journal, record, run, first);
    if live {
      GoIsAnnounced(run, fates, spent, first, first + count, shouldCancel, journal.Behind(), r, aim);
    }
  }

  function Least(a: nat, b: nat): nat {
    if a < b then a else b
  }

  /** Announces the next `count` steps and takes them. */
  method ForwardRound(plan: PlanView, journal: DurableAppender, first: nat, count: nat, shouldCancel: nat -> bool,
                      ghost run: Run, ghost aim: ExecutionOutcome)
    returns (stop: Option<ExecutionOutcome>)
    requires run.plan == plan && Consistent(run, journal, first) && ForwardIn(journal.Accepted(), first, first)
    requires 0 < count <= FORWARD_JOURNAL_BATCH_STEPS && first + count <= run.Steps()
    requires first + count == BatchEnd(journal.schemaVersion, first, run.Steps())
    requires journal.Live() ==> Goes(run, journal.Ahead(), journal.Behind(), first, shouldCancel, aim)
    requires count > 1 ==> journal.schemaVersion >= JOURNAL_SCHEMA_VERSION
    modifies journal, journal.sink
    ensures stop.None? ==> Consistent(run, journal, first + count) && ForwardIn(journal.Accepted(), first + count, first + count)
    ensures stop.Some? ==> Concluded(run, journal, stop.value) && stop.value != ExecutionOutcome.Finished
    ensures plan.Complete() && stop.Some? ==> !IsInvalidPlan(stop.value)
    ensures stop.None? ==> forall i :: first <= i < first + count ==> !shouldCancel(i)
    ensures stop.Some? ==> HasCause(journal.Accepted(), stop.value, first, first + count, shouldCancel)
    ensures stop.None? ==> journal.Live() && Goes(run, journal.Ahead(), journal.Behind(), first + count, shouldCancel, aim)
    ensures stop.Some? && old(journal.Live()) ==> stop.value == aim
  {
    var announced := AppendForwardBatch(journal, first, count, shouldCancel, run, aim);
    if announced.Failure? {
      var outcome := JournalRecovery(Forwards, Some(first), announced.error);
      AcceptedIsExplained(run, journal, first);
      ReportsForward(run.Steps(), journal.Accepted(), first, first, first, outcome);
      NoCauseIsNeeded(journal.Accepted(), outcome, first, first + count, shouldCancel);
      RecoveryIsDue(run, journal, first, outcome);
      return Some(outcome);
    }
    stop := ForwardBatch(plan, journal, first, first + count, shouldCancel, run, aim);
    if stop.None? {
      TakeIsOver(run, journal.Ahead(), journal.Behind(), first + count, shouldCancel, aim);
    }
  }

  /** Takes the steps from `nextStep` on, batch by batch. */
  method GoForward(plan: PlanView, journal: DurableAppender, nextStep: nat, shouldCancel: nat -> bool,
                   ghost run: Run, ghost aim: ExecutionOutcome)
    returns (stop: Option<ExecutionOutcome>)
    requires run.plan == plan && nextStep <= |plan.schedule|
    requires journal.Live() ==> Goes(run, journal.Ahead(), journal.Behind(), nextStep, shouldCancel, aim)
    requires Consistent(run, journal, nextStep) && ForwardIn(journal.Accepted(), nextStep, nextStep)
    modifies journal, journal.sink
    ensures stop.None? ==> Consistent(run, journal, run.Steps()) && ForwardIn(journal.Accepted(), run.Steps(), run.Steps())
    ensures stop.None? ==> !CancelledFrom(run, nextStep, shouldCancel)
    ensures stop.Some? ==> Concluded(run, journal, stop.value) && stop.value != ExecutionOutcome.Finished
    ensures plan.Complete() && stop.Some? ==> !IsInvalidPlan(stop.value)
    ensures stop.Some? ==> HasCause(journal.Accepted(), stop.value, nextStep, run.Steps(), shouldCancel)
    ensures stop.None? && journal.Live() ==> Goes(run, journal.Ahead(), journal.Behind(), run.Steps(), shouldCancel, aim)
    ensures stop.None? && old(journal.Live()) ==> journal.Live()
    ensures stop.Some? && old(journal.Live()) ==> stop.value == aim
  {
    var steps := |plan.schedule|;
    var batchSize := ForwardBatchSize(journal.schemaVersion);
    var first := nextStep;
    while first < steps
      invariant nextStep <= first <= steps
      invariant Consistent(run, journal, first) && ForwardIn(journal.Accepted(), first, first)
      invariant forall i :: nextStep <= i < first ==> !shouldCancel(i)
      invariant journal.Live() ==> Goes(run, journal.Ahead(), journal.Behind(), first, shouldCancel, aim)
      invariant old(journal.Live()) ==> journal.Live()
    {
      var count := Least(batchSize, steps - first);
      stop := ForwardRound(plan, journal, first, count, shouldCancel, run, aim);
      if stop.Some? {
        CausesSpread(journal.Accepted(), stop.value, first, first + count, nextStep, run.Steps(), shouldCancel);
        return;
      }
      first := first + count;
    }
    stop := None;
  }

  /** Goes forward from step `nextStep`, batch by batch, to the end or to the first trouble. */
  method ContinueForward(plan: PlanView, journal: DurableAppender, nextStep: nat, shouldCancel: nat -> bool, ghost run: Run,
                         ghost aim: ExecutionOutcome)
    returns (outcome: ExecutionOutcome)
    requires run.plan == plan && Settled(run, journal) && Pending(journal.Accepted())
    requires nextStep <= |plan.schedule| ==> Consistent(run, journal, nextStep) && ForwardIn(journal.Accepted(), nextStep, nextStep)
    requires nextStep <= |plan.schedule| && journal.Live() ==> Goes(run, journal.Ahead(), journal.Behind(), nextStep, shouldCancel, aim)
    modifies journal, journal.sink
    ensures Concluded(run, journal, outcome)
    ensures nextStep <= |plan.schedule| && plan.Complete() ==> !IsInvalidPlan(outcome)
    ensures outcome == ExecutionOutcome.Finished ==> !CancelledFrom(run, nextStep, shouldCancel)
    ensures HasCause(journal.Accepted(), outcome, nextStep, run.Steps(), shouldCancel)
    ensures nextStep <= |plan.schedule| && old(journal.Live()) ==> outcome == aim
  {
    if nextStep > |plan.schedule| {
      outcome := InvalidPlan(Forwards, Some(nextStep));
      NothingToReport(journal.Accepted(), outcome);
      NoCauseIsNeeded(journal.Accepted(), outcome, nextStep, run.Steps(), shouldCancel);
      ghost var applied :| Consistent(run, journal, applied);
      RecoveryIsDue(run, journal, applied, outcome);
      return;
    }
    var stop := GoForward(plan, journal, nextStep, shouldCancel, run, aim);
    if stop.Some? {
      return stop.value;
    }
    outcome := CompleteTransaction(journal, shouldCancel, run, aim);
    NoCauseIsNeeded(journal.Accepted(), outcome, nextStep, run.Steps(), shouldCancel);
  }

  /** An empty journal is sound while nothing has been renamed. */
  lemma NothingYetIsSound(run: Run, was: Moment)
    requires was == Moment(run.initial, [], 0, [], 0, [])
    ensures Sound(run, was, [], 0)
  {
    assert run.Reached(was.tree, 0);
  }

  lemma HeaderExplains(plan: FrozenExecutionPlan, run: Run)
    requires plan.WellFormed() && run.plan == plan.View()
    ensures Explained(run.Steps(), [plan.InitialRecord()], 0)
    ensures ForwardIn([plan.InitialRecord()], 0, 0)
    ensures plan.InitialRecord().TransactionStarted? && RecordCodec.Constructible(plan.InitialRecord())
  {
    var header := plan.InitialRecord();
    assert ValidHeader(header);
    assert Range(0, 0) == [];
    forall e | e in header.entries ensures e.Constructible() {
      var i :| 0 <= i < |header.entries| && header.entries[i] == e;
      assert plan.entries[i] in plan.entries;
    }
  }

  /** The header is on disk before anything is renamed; then the plan goes forward from its first step. */
  method ExecuteFrozenPlan(plan: FrozenExecutionPlan, disk: Machine, write: FrameWriter, shouldCancel: nat -> bool)
    returns (r: Result<ExecutionOutcome, JournalStorageErrorKind>, journal: DurableAppender)
    requires plan.WellFormed()
    requires disk.Now() == Moment(disk.tree, [], 0, [], 0, []) && disk.history == []
    modifies disk
    ensures fresh(journal) && journal.sink == disk
    ensures var run := Run(plan.View(), disk.parents, old(disk.tree), write, plan.InitialRecord());
            && SafeHistory(run, disk.history)
            && (r.Success? ==> Concluded(run, journal, r.value))
            && (r.Failure? ==> disk.tree == old(disk.tree))
            && (plan.View().Complete() && r.Success? ==> !IsInvalidPlan(r.value))
            && (r == Success(ExecutionOutcome.Finished) ==> !CancelledFrom(run, 0, shouldCancel))
            && (r.Success? ==> HasCause(journal.Accepted(), r.value, 0, run.Steps(), shouldCancel))
            && r == Executing(run, FatesOf(disk, write), old(SpentOn(disk)), shouldCancel)
  {
    ghost var run := Run(plan.View(), disk.parents, disk.tree, write, plan.InitialRecord());
    journal := new DurableAppender(write, disk);
    var header := plan.InitialRecord();
    ghost var was := disk.Now();
    NothingYetIsSound(run, was);
    HeaderExplains(plan, run);
    assert was.written + [header] == [header];
    var started := journal.AppendInitial(header);
    AppendKeepsSound(run, write, was, disk.Now(), header, [], disk.history, 0);
    if started.Failure? {
      assert SafeHistory(run, disk.history) by { assert Unsealed(SoundSeal, 0); }
      return Failure(started.error.kind), journal;
    }
    assert Consistent(run, journal, 0);
    ghost var aim := Going(run, journal.Ahead(), journal.Behind(), 0, shouldCancel);
    assert Goes(run, journal.Ahead(), journal.Behind(), 0, shouldCancel, aim);
    var outcome := ContinueForward(plan.View(), journal, 0, shouldCancel, run, aim);
    r := Success(outcome);
  }
}
