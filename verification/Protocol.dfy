/** What an accepted journal certifies about its own records, whatever the automaton that accepted it. */
module Protocol {
  import opened Primitives
  import opened Execution
  import opened Replay

  /** The record announces the forward step. */
  predicate Announces(record: JournalRecord, step: nat) {
    match record
    case ForwardBatchPrepared(first, count) => first <= step < first + count
    case ForwardStepPrepared(prepared) => prepared == step
    case _ => false
  }

  ghost predicate Announced(records: seq<JournalRecord>, step: nat) {
    exists j :: 0 <= j < |records| && Announces(records[j], step)
  }

  /** Every step of the open window has been announced. */
  lemma {:induction false} WindowIsAnnounced(records: seq<JournalRecord>, step: nat)
    requires ReplayAll(records).Success? && ReplayAll(records).value.Forward? && step in ReplayAll(records).value.preparedSteps
    ensures Announced(records, step)
  {
    if |records| > 1 {
      var front, last := records[..|records| - 1], records[|records| - 1];
      assert records == front + [last];
      if step in ReplayAll(front).value.preparedSteps {
        WindowIsAnnounced(front, step);
        var j :| 0 <= j < |front| && Announces(front[j], step);
        assert Announces(records[j], step);
      } else {
        assert Announces(records[|front|], step);
      }
    }
  }

  /** Write-ahead: whatever is recorded about a forward step, the step was announced before. */
  lemma ForwardStepsAreAnnounced(records: seq<JournalRecord>, i: nat)
    requires ReplayAll(records).Success? && i < |records|
    requires records[i].ForwardStepCompleted? || records[i].ForwardStepNotApplied?
             || (records[i].RollbackStarted? && records[i].cause.ForwardStepFailed?)
    ensures Announced(records[..i], if records[i].RollbackStarted? then records[i].cause.stepIndex else records[i].stepIndex)
  {
    AcceptedStep(records, i);
    WindowIsAnnounced(records[..i], if records[i].RollbackStarted? then records[i].cause.stepIndex else records[i].stepIndex);
  }

  /** A rollback step can only be prepared by the very last record. */
  lemma PreparedIsLast(records: seq<JournalRecord>, step: nat)
    requires ReplayAll(records).Success? && ReplayAll(records).value.Rollback? && ReplayAll(records).value.preparedStep == Some(step)
    ensures |records| > 1 && records[|records| - 1] == RollbackStepPrepared(step)
  {
  }

  /** On the way back every outcome directly follows its own announcement. */
  lemma RollbackStepsAreAnnounced(records: seq<JournalRecord>, i: nat)
    requires ReplayAll(records).Success? && i < |records|
    requires records[i].RollbackStepCompleted? || records[i].RollbackStepNotApplied? || records[i].RollbackStepFailed?
    ensures i > 1 && records[i - 1] == RollbackStepPrepared(records[i].stepIndex)
  {
    AcceptedStep(records, i);
    PreparedIsLast(records[..i], records[i].stepIndex);
  }

  /** A record of an accepted journal was accepted in the mode that the records before it lead to. */
  lemma AcceptedStep(records: seq<JournalRecord>, i: nat)
    requires ReplayAll(records).Success? && 0 < i < |records|
    ensures ReplayAll(records[..i]).Success? && ReplayAll(records[..i + 1]).Success?
    ensures ApplyRecord(ReplayAll(records[..i]).value, StepCount(records), records[i]) == Success(ReplayAll(records[..i + 1]).value)
  {
    PrefixAccepted(records, i);
    PrefixAccepted(records, i + 1);
    assert records[..i + 1][..i] == records[..i];
  }

  ghost predicate StartsOnce(records: seq<JournalRecord>, i: nat, cause: RollbackCause) {
    && i < |records| && records[i] == RollbackStarted(cause)
    && forall j :: 0 <= j < |records| && records[j].RollbackStarted? ==> j == i
  }

  /** The rollback that a journal is in, or ended with, was started exactly once, for the cause that is reported;
      a journal that goes forward, or has finished, started none. */
  lemma {:induction false} CauseIsOnRecord(records: seq<JournalRecord>)
    requires ReplayAll(records).Success?
    ensures match ReplayAll(records).value
            case Rollback(cause, _, _) => exists i :: StartsOnce(records, i, cause)
            case Stuck(cause, _, _) => exists i :: StartsOnce(records, i, cause)
            case Reverted(cause) => exists i :: StartsOnce(records, i, cause)
            case _ => forall j :: 0 <= j < |records| ==> !records[j].RollbackStarted?
  {
    if |records| > 1 {
      var front, last := records[..|records| - 1], records[|records| - 1];
      assert records == front + [last];
      CauseIsOnRecord(front);
      var mode := ReplayAll(front).value;
      if mode.Forward? && last.RollbackStarted? {
        assert StartsOnce(records, |front|, last.cause);
      } else if mode.Rollback? || mode.Stuck? {
        var i :| StartsOnce(front, i, mode.cause);
        assert StartsOnce(records, i, mode.cause);
      }
    }
  }

  /** When a rollback starts, and what it leaves to be taken back. A failed step is the first open one; a
      recovery is only requested while nothing is open; cancelling is always possible. */
  lemma RollbackStartsWhen(records: seq<JournalRecord>, cause: RollbackCause)
    requires ReplayAll(records).Success?
    ensures ReplayAll(records + [RollbackStarted(cause)]).Success? <==>
              && ReplayAll(records).value.Forward?
              && var done, open := |ForwardCompletions(records)|, ReplayAll(records).value.preparedSteps;
                 match cause
                 case Cancelled => true
                 case RecoveryRequested => open == []
                 case ForwardStepFailed(step) => open != [] && step == done
    ensures var after := ReplayAll(records + [RollbackStarted(cause)]);
            after.Success? ==> after.value == Rollback(cause, Countdown(|ForwardCompletions(records)|), None)
  {
    ReplayInvariant(records);
    ReplayAppend(records, RollbackStarted(cause));
    var mode := ReplayAll(records).value;
    if mode.Forward? {
      assert Reversed(mode.completedSteps) == Countdown(mode.nextStep);
    }
  }

  ghost predicate Accepts(records: seq<JournalRecord>, record: JournalRecord) {
    ReplayAll(records + [record]).Success?
  }

  lemma AcceptsByMode(records: seq<JournalRecord>, record: JournalRecord)
    requires ReplayAll(records).Success?
    ensures Accepts(records, record) <==> ApplyRecord(ReplayAll(records).value, StepCount(records), record).Success?
  {
    ReplayAppend(records, record);
  }

  /** What a mode goes on with, read off its status. */
  predicate Expects(status: JournalStatus, record: JournalRecord) {
    match record
    case ForwardStepPrepared(step) => status == ForwardPending(step)
    case ForwardStepCompleted(step, _) => status == ReconciliationRequired(Forwards, step)
    case ForwardStepNotApplied(step) => status == ReconciliationRequired(Forwards, step)
    case TransactionCompleted => status == CompletionPending
    case RollbackStepPrepared(step) => status.RollbackPending? && status.nextStep == step
    case RollbackStepCompleted(step, _) => status == ReconciliationRequired(Backwards, step)
    case RollbackStepNotApplied(step) => status == ReconciliationRequired(Backwards, step)
    case RollbackStepFailed(step) => status == ReconciliationRequired(Backwards, step)
    case RollbackRecoveryStarted(step) => status.RecoveryRequired? && status.failedStep == step
    case TransactionRolledBack => status.RollbackCompletionPending?
    case _ => false
  }

  predicate IsStepRecord(record: JournalRecord) {
    !record.TransactionStarted? && !record.ForwardBatchPrepared? && !record.RollbackStarted?
  }

  lemma ModeExpects(mode: ReplayMode, stepCount: nat, record: JournalRecord)
    requires Canonical(mode, stepCount) && IsStepRecord(record)
    ensures ApplyRecord(mode, stepCount, record).Success? <==> Expects(StatusFor(mode, stepCount), record)
  {
  }

  /** The status names exactly the step that the journal waits for, and whether it was announced. */
  lemma StatusTellsWhatIsNext(records: seq<JournalRecord>, record: JournalRecord)
    requires ReplayAll(records).Success? && IsStepRecord(record)
    ensures Accepts(records, record) <==> Expects(Replayed(records).value, record)
  {
    ReplayInvariant(records);
    AcceptsByMode(records, record);
    ModeExpects(ReplayAll(records).value, StepCount(records), record);
  }

  /** A batch is accepted where its first step is, as long as it ends within the schedule. */
  lemma BatchesStartWhereStepsDo(records: seq<JournalRecord>, first: usize, count: usize)
    requires ReplayAll(records).Success? && first + count <= USIZE_MAX
    ensures Accepts(records, ForwardBatchPrepared(first, count)) <==>
              Accepts(records, ForwardStepPrepared(first)) && 0 < count && first + count <= StepCount(records)
  {
    ReplayInvariant(records);
    AcceptsByMode(records, ForwardBatchPrepared(first, count));
    AcceptsByMode(records, ForwardStepPrepared(first));
  }

  /** Why a journal is refused from the start. */
  lemma HeaderRefusals(records: seq<JournalRecord>)
    ensures records == [] ==> Replayed(records) == Failure(JournalReplayError(0, EmptyJournal))
    ensures records != [] && !records[0].TransactionStarted? ==> Replayed(records) == Failure(JournalReplayError(0, MissingHeader))
    ensures records != [] && records[0].TransactionStarted? ==>
              records[0].entries == [] || records[0].stepCount != 2 * |records[0].entries| ==>
              Replayed(records) == Failure(JournalReplayError(0, InvalidStepCount))
    ensures records != [] && ValidHeader(records[0]) ==> Replayed([records[0]]) == Success(ForwardPending(0))
  {
    if records != [] && !ValidHeader(records[0]) {
      assert ReplayAll(records[..1]).Failure?;
      FailureSticks(records, 1);
    }
  }

  /** Why a record is refused, and at which place: behind the end everything is; an announcement of a step that
      is not the next one in its direction, or of a renewed attempt at a step that has not failed, names both
      steps; a batch that starts right must not be empty or end behind the schedule; the rest comes at the
      wrong time. */
  lemma RefusalsTell(records: seq<JournalRecord>, record: JournalRecord)
    requires ReplayAll(records).Success? && !Accepts(records, record)
    requires record.ForwardBatchPrepared? ==> record.firstStep + record.batchSteps <= USIZE_MAX
    ensures ReplayAll(records + [record]).Failure? && ReplayAll(records + [record]).error.recordIndex == |records|
    ensures var mode, kind, done := ReplayAll(records).value, ReplayAll(records + [record]).error.kind, |ForwardCompletions(records)|;
            if mode.Finished? || mode.Reverted? then kind == RecordAfterTerminal
            else match record
              case ForwardStepPrepared(step) => kind == if mode.Forward? && step != done then UnexpectedStep(done, step) else UnexpectedRecord
              case ForwardBatchPrepared(first, _) =>
                kind == if !mode.Forward? then UnexpectedRecord
                        else if first != done then UnexpectedStep(done, first)
                        else if mode.preparedSteps != [] then UnexpectedRecord
                        else InvalidPreparedBatch
              case RollbackStepPrepared(step) =>
                kind == if mode.Rollback? && mode.remainingSteps != [] && step != |mode.remainingSteps| - 1
                        then UnexpectedStep(|mode.remainingSteps| - 1, step) else UnexpectedRecord
              case RollbackRecoveryStarted(step) => kind == if mode.Stuck? then UnexpectedStep(mode.failedStep, step) else UnexpectedRecord
              case _ => kind == UnexpectedRecord
  {
    ReplayInvariant(records);
    ReplayAppend(records, record);
  }

  /** The terminal statuses are exactly those after which nothing is accepted. */
  lemma TerminalMeansFinal(records: seq<JournalRecord>)
    requires ReplayAll(records).Success?
    ensures Replayed(records).value.Terminal() <==> forall record :: !Accepts(records, record)
  {
    var status := Replayed(records).value;
    if status.Terminal() {
      forall record ensures !Accepts(records, record) {
        AcceptsByMode(records, record);
      }
    } else {
      ReplayInvariant(records);
      var record := match status
        case ForwardPending(step) => ForwardStepPrepared(step)
        case ReconciliationRequired(direction, step) =>
          if direction == Forwards then ForwardStepNotApplied(step) else RollbackStepNotApplied(step)
        case RollbackPending(_, step) => RollbackStepPrepared(step)
        case RecoveryRequired(_, step) => RollbackRecoveryStarted(step)
        case RollbackCompletionPending(_) => TransactionRolledBack
        case _ => TransactionCompleted;
      StatusTellsWhatIsNext(records, record);
    }
  }
}
