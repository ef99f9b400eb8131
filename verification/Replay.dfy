/** Journal replay: the automaton that explains whatever records survive. */
module Replay {
  import opened Primitives
  import opened Execution

  datatype ReplayMode =
    | Forward(nextStep: nat, completedSteps: seq<nat>, preparedSteps: seq<nat>)
    | Rollback(cause: RollbackCause, remainingSteps: seq<nat>, preparedStep: Option<nat>)
    | Finished
    | Reverted(cause: RollbackCause)
    | Stuck(cause: RollbackCause, failedStep: nat, remainingSteps: seq<nat>)

  type StepOutcome = Result<ReplayMode, JournalReplayErrorKind>
  type ReplayOutcome = Result<ReplayMode, JournalReplayError>

  function Range(lo: nat, hi: nat): (r: seq<nat>)
    requires lo <= hi
    ensures |r| == hi - lo && forall i :: 0 <= i < |r| ==> r[i] == lo + i
  {
    seq(hi - lo, i requires 0 <= i => lo + i)
  }

  /** k-1, k-2, ..., 0: the order in which k completed steps are taken back. */
  function Countdown(k: nat): (r: seq<nat>)
    ensures |r| == k && forall i :: 0 <= i < k ==> r[i] == k - 1 - i
  {
    seq(k, i requires 0 <= i < k => k - 1 - i)
  }

  function Reversed(s: seq<nat>): (r: seq<nat>)
    ensures |r| == |s| && forall i :: 0 <= i < |s| ==> r[i] == s[|s| - 1 - i]
  {
    seq(|s|, i requires 0 <= i < |s| => s[|s| - 1 - i])
  }

  function RequireStep(expected: nat, actual: nat): Result<(), JournalReplayErrorKind> {
    if expected == actual then Success(()) else Failure(UnexpectedStep(expected, actual))
  }

  function ForwardBatchSteps(nextStep: nat, firstStep: nat, preparedCount: nat, stepCount: nat)
    : Result<seq<nat>, JournalReplayErrorKind>
  {
    var _ :- RequireStep(nextStep, firstStep);
    if firstStep + preparedCount > USIZE_MAX then Failure(InvalidPreparedBatch)
    else if preparedCount == 0 || firstStep + preparedCount > stepCount then Failure(InvalidPreparedBatch)
    else Success(Range(firstStep, firstStep + preparedCount))
  }

  function ApplyForward(mode: ReplayMode, stepCount: nat, record: JournalRecord): StepOutcome
    requires mode.Forward?
  {
    var next, done, prepared := mode.nextStep, mode.completedSteps, mode.preparedSteps;
    match record
    case ForwardBatchPrepared(first, count) =>
      if prepared == [] then
        var steps :- ForwardBatchSteps(next, first, count, stepCount);
        Success(Forward(next, done, steps))
      else
        var _ :- RequireStep(next, first);
        Failure(UnexpectedRecord)
    case ForwardStepPrepared(step) =>
      var _ :- RequireStep(next, step);
      if prepared == [] && next < stepCount then Success(Forward(next, done, [step]))
      else Failure(UnexpectedRecord)
    case ForwardStepCompleted(step, _) =>
      if prepared != [] && prepared[0] == step && next == step then
        Success(Forward(next + 1, done + [step], prepared[1..]))
      else Failure(UnexpectedRecord)
    case ForwardStepNotApplied(step) =>
      if prepared != [] && prepared[0] == step then Success(Forward(next, done, []))
      else Failure(UnexpectedRecord)
    case RollbackStarted(cause) =>
      var _ :- RollbackAdmitted(cause, next, prepared);
      Success(Rollback(cause, Reversed(done), None))
    case TransactionCompleted =>
      if prepared == [] && next == stepCount then Success(Finished) else Failure(UnexpectedRecord)
    case _ => Failure(UnexpectedRecord)
  }

  function RollbackAdmitted(cause: RollbackCause, next: nat, prepared: seq<nat>): Result<(), JournalReplayErrorKind> {
    match cause
    case Cancelled => Success(())
    case RecoveryRequested => if prepared == [] then Success(()) else Failure(UnexpectedRecord)
    case ForwardStepFailed(step) =>
      if prepared != [] && prepared[0] == step then RequireStep(next, step) else Failure(UnexpectedRecord)
  }

  function ApplyRollback(mode: ReplayMode, record: JournalRecord): StepOutcome
    requires mode.Rollback?
  {
    var cause, remaining, prepared := mode.cause, mode.remainingSteps, mode.preparedStep;
    match record
    case RollbackStepPrepared(step) =>
      if prepared.None? && remaining != [] && remaining[0] == step then Success(Rollback(cause, remaining, Some(step)))
      else if remaining == [] then Failure(UnexpectedRecord)
      else
        var _ :- RequireStep(remaining[0], step);
        Failure(UnexpectedRecord)
    case RollbackStepCompleted(step, _) =>
      if prepared == Some(step) then
        Success(Rollback(cause, if remaining == [] then [] else remaining[1..], None))
      else Failure(UnexpectedRecord)
    case RollbackStepNotApplied(step) =>
      if prepared == Some(step) then Success(Rollback(cause, remaining, None)) else Failure(UnexpectedRecord)
    case RollbackStepFailed(step) =>
      if prepared == Some(step) then Success(Stuck(cause, step, remaining)) else Failure(UnexpectedRecord)
    case TransactionRolledBack =>
      if prepared.None? && remaining == [] then Success(Reverted(cause)) else Failure(UnexpectedRecord)
    case _ => Failure(UnexpectedRecord)
  }

  function ApplyRecord(mode: ReplayMode, stepCount: nat, record: JournalRecord): StepOutcome {
    match mode
    case Forward(_, _, _) => ApplyForward(mode, stepCount, record)
    case Rollback(_, _, _) => ApplyRollback(mode, record)
    case Stuck(cause, failed, remaining) =>
      if record.RollbackRecoveryStarted? then
        var _ :- RequireStep(failed, record.stepIndex);
        Success(Rollback(cause, remaining, None))
      else Failure(UnexpectedRecord)
    case Finished => Failure(RecordAfterTerminal)
    case Reverted(_) => Failure(RecordAfterTerminal)
  }

  function StatusFor(mode: ReplayMode, stepCount: nat): JournalStatus {
    match mode
    case Forward(next, _, prepared) =>
      if prepared != [] then ReconciliationRequired(Forwards, prepared[0])
      else if next == stepCount then CompletionPending
      else ForwardPending(next)
    case Rollback(cause, remaining, prepared) =>
      if prepared.Some? then ReconciliationRequired(Backwards, prepared.value)
      else if remaining == [] then RollbackCompletionPending(cause)
      else RollbackPending(cause, remaining[0])
    case Finished => Completed
    case Reverted(cause) => RolledBack(cause)
    case Stuck(cause, failed, _) => RecoveryRequired(cause, failed)
  }

  const START: ReplayMode := Forward(0, [], [])

  predicate ValidHeader(record: JournalRecord) {
    && record.TransactionStarted?
    && record.entries != []
    && record.stepCount == 2 * |record.entries|
  }

  function StepCount(records: seq<JournalRecord>): nat {
    if records != [] && records[0].TransactionStarted? then records[0].stepCount else 0
  }

  /** The mode after a whole record list, from the last record backwards. */
  function ReplayAll(records: seq<JournalRecord>): ReplayOutcome {
    if records == [] then Failure(JournalReplayError(0, EmptyJournal))
    else if |records| == 1 then
      if !records[0].TransactionStarted? then Failure(JournalReplayError(0, MissingHeader))
      else if !ValidHeader(records[0]) then Failure(JournalReplayError(0, InvalidStepCount))
      else Success(START)
    else
      var last := |records| - 1;
      var mode :- ReplayAll(records[..last]);
      match ApplyRecord(mode, StepCount(records), records[last])
      case Success(following) => Success(following)
      case Failure(kind) => Failure(JournalReplayError(last, kind))
  }

  function Replayed(records: seq<JournalRecord>): Result<JournalStatus, JournalReplayError> {
    var mode :- ReplayAll(records);
    Success(StatusFor(mode, StepCount(records)))
  }

  method ReplayJournal(records: seq<JournalRecord>) returns (r: Result<JournalStatus, JournalReplayError>)
    ensures r == Replayed(records)
  {
    if |records| == 0 {
      return Failure(JournalReplayError(0, EmptyJournal));
    }
    var first := records[0];
    if !first.TransactionStarted? {
      FailureSticks(records, 1);
      return Failure(JournalReplayError(0, MissingHeader));
    }
    if |first.entries| == 0 || 2 * |first.entries| != first.stepCount {
      FailureSticks(records, 1);
      return Failure(JournalReplayError(0, InvalidStepCount));
    }
    var mode := START;
    var i := 1;
    while i < |records|
      invariant 1 <= i <= |records|
      invariant ReplayAll(records[..i]) == Success(mode)
    {
      var outcome := ApplyRecord(mode, first.stepCount, records[i]);
      assert records[..i + 1][..i] == records[..i];
      if outcome.Failure? {
        FailureSticks(records, i + 1);
        return Failure(JournalReplayError(i, outcome.error));
      }
      mode := outcome.value;
      i := i + 1;
    }
    assert records[..i] == records;
    return Success(StatusFor(mode, first.stepCount));
  }

  /** Replay stops at the first protocol violation. */
  lemma {:induction false} FailureSticks(records: seq<JournalRecord>, k: nat)
    requires k <= |records| && ReplayAll(records[..k]).Failure? && k >= 1
    ensures ReplayAll(records) == ReplayAll(records[..k])
  {
    if k == |records| {
      assert records[..k] == records;
    } else {
      var front := records[..|records| - 1];
      assert front[..k] == records[..k];
      FailureSticks(front, k);
    }
  }

  /** Every prefix of an accepted journal is accepted. */
  lemma {:induction false} PrefixAccepted(records: seq<JournalRecord>, k: nat)
    requires 1 <= k <= |records| && ReplayAll(records).Success?
    ensures ReplayAll(records[..k]).Success?
  {
    if ReplayAll(records[..k]).Failure? {
      FailureSticks(records, k);
    }
  }

  lemma ReplayAppend(records: seq<JournalRecord>, record: JournalRecord)
    requires ReplayAll(records).Success?
    ensures StepCount(records + [record]) == StepCount(records)
    ensures match ApplyRecord(ReplayAll(records).value, StepCount(records), record)
            case Success(mode) => ReplayAll(records + [record]) == Success(mode)
            case Failure(kind) => ReplayAll(records + [record]) == Failure(JournalReplayError(|records|, kind))
  {
    assert (records + [record])[..|records|] == records;
  }

  // ---------------------------------------------------------------- the shape of every reachable mode

  ghost predicate ForwardAt(mode: ReplayMode, next: nat, end: nat) {
    next <= end && mode == Forward(next, Range(0, next), Range(next, end))
  }

  ghost predicate RollbackAt(mode: ReplayMode, cause: RollbackCause, k: nat, prepared: bool) {
    && (prepared ==> k > 0)
    && mode == Rollback(cause, Countdown(k), if prepared then Some(k - 1) else None)
  }

  /** Forward: 0..next are done and a contiguous window from next is prepared.
      Backward: k-1 down to 0 remain, and only the first of them can be prepared or have failed. */
  ghost predicate Canonical(mode: ReplayMode, stepCount: nat) {
    match mode
    case Forward(next, _, prepared) => next + |prepared| <= stepCount && ForwardAt(mode, next, next + |prepared|)
    case Rollback(cause, remaining, prepared) => |remaining| <= stepCount && RollbackAt(mode, cause, |remaining|, prepared.Some?)
    case Stuck(_, failed, remaining) =>
      remaining == Countdown(|remaining|) && 0 < |remaining| <= stepCount && failed == |remaining| - 1
    case _ => true
  }

  lemma ApplyKeepsCanonical(mode: ReplayMode, stepCount: nat, record: JournalRecord)
    requires Canonical(mode, stepCount)
    ensures var r := ApplyRecord(mode, stepCount, record); r.Success? ==> Canonical(r.value, stepCount)
  {
    match mode
    case Forward(next, done, prepared) =>
      match record {
        case ForwardStepPrepared(step) =>
          assert [next] == Range(next, next + 1);
        case ForwardStepCompleted(step, _) =>
          if prepared != [] {
            assert done + [next] == Range(0, next + 1);
            assert prepared[1..] == Range(next + 1, next + |prepared|);
          }
        case RollbackStarted(_) =>
          assert Reversed(Range(0, next)) == Countdown(next);
        case _ =>
      }
    case Rollback(cause, remaining, prepared) =>
      if remaining != [] {
        assert remaining[1..] == Countdown(|remaining| - 1);
      }
    case _ =>
  }

  /** The steps that the records complete in each direction, in the order of the records. */
  function ForwardCompletions(records: seq<JournalRecord>): seq<nat> {
    if records == [] then []
    else
      var last := records[|records| - 1];
      ForwardCompletions(records[..|records| - 1]) + if last.ForwardStepCompleted? then [last.stepIndex] else []
  }

  function RollbackCompletions(records: seq<JournalRecord>): seq<nat> {
    if records == [] then []
    else
      var last := records[|records| - 1];
      RollbackCompletions(records[..|records| - 1]) + if last.RollbackStepCompleted? then [last.stepIndex] else []
  }

  /** Steps are completed as 0, 1, 2, ... and taken back from the last one down; the mode says how far. */
  ghost predicate CompletionsAgree(mode: ReplayMode, stepCount: nat, forwards: seq<nat>, backwards: seq<nat>) {
    && forwards == Range(0, |forwards|) && |forwards| <= stepCount
    && match mode
       case Forward(next, _, _) => |forwards| == next && backwards == []
       case Rollback(_, remaining, _) => backwards + remaining == Countdown(|forwards|)
       case Stuck(_, _, remaining) => backwards + remaining == Countdown(|forwards|)
       case Finished => |forwards| == stepCount && backwards == []
       case Reverted(_) => backwards == Countdown(|forwards|)
  }

  lemma OneMoreCompletion(mode: ReplayMode, stepCount: nat, forwards: seq<nat>, backwards: seq<nat>, record: JournalRecord)
    requires Canonical(mode, stepCount) && CompletionsAgree(mode, stepCount, forwards, backwards)
    requires ApplyRecord(mode, stepCount, record).Success?
    ensures CompletionsAgree(ApplyRecord(mode, stepCount, record).value, stepCount,
                             forwards + (if record.ForwardStepCompleted? then [record.stepIndex] else []),
                             backwards + (if record.RollbackStepCompleted? then [record.stepIndex] else []))
  {
    if record.ForwardStepCompleted? {
      assert forwards + [record.stepIndex] == Range(0, |forwards| + 1);
    } else if record.RollbackStepCompleted? {
      var remaining := mode.remainingSteps;
      assert remaining[0] == record.stepIndex;
      assert backwards + [record.stepIndex] + remaining[1..] == backwards + remaining;
    } else {
      assert forwards + [] == forwards && backwards + [] == backwards;
      if record.RollbackStarted? {
        assert Reversed(mode.completedSteps) == Countdown(|forwards|);
      }
    }
  }

  /** The replay invariant, over every accepted record list. */
  lemma {:induction false} ReplayInvariant(records: seq<JournalRecord>)
    requires ReplayAll(records).Success?
    ensures ValidHeader(records[0]) && StepCount(records) == 2 * |records[0].entries| > 0
    ensures Canonical(ReplayAll(records).value, StepCount(records))
    ensures CompletionsAgree(ReplayAll(records).value, StepCount(records), ForwardCompletions(records), RollbackCompletions(records))
  {
    if |records| == 1 {
      assert Range(0, 0) == [];
      assert records[..0] == [];
    } else {
      var front := records[..|records| - 1];
      ReplayInvariant(front);
      ApplyKeepsCanonical(ReplayAll(front).value, StepCount(records), records[|records| - 1]);
      OneMoreCompletion(ReplayAll(front).value, StepCount(records), ForwardCompletions(front), RollbackCompletions(front),
                        records[|records| - 1]);
    }
  }

  /** What the two terminal statuses certify about the completions on record. */
  lemma TerminalStatusesAreEarned(records: seq<JournalRecord>)
    requires Replayed(records).Success?
    ensures Replayed(records).value == Completed ==>
              ForwardCompletions(records) == Range(0, StepCount(records)) && RollbackCompletions(records) == []
    ensures Replayed(records).value.RolledBack? ==>
              RollbackCompletions(records) == Reversed(ForwardCompletions(records))
  {
    ReplayInvariant(records);
    var forwards := ForwardCompletions(records);
    assert Reversed(forwards) == Countdown(|forwards|);
  }

  /** Nothing can follow a terminal record. */
  lemma TerminalIsFinal(records: seq<JournalRecord>, record: JournalRecord)
    requires Replayed(records).Success? && Replayed(records).value.Terminal()
    ensures Replayed(records + [record]) == Failure(JournalReplayError(|records|, RecordAfterTerminal))
  {
    ReplayAppend(records, record);
  }
}
