/** A journaled transaction as values: the moves of a plan, the trees they lead through, and when the
    surviving records explain the tree. */
module Transaction {
  import opened Primitives
  import opened Execution
  import opened Replay
  import opened Frames
  import opened Machine

  const FORWARD_JOURNAL_BATCH_STEPS: nat := 32

  datatype FrozenEntry = FrozenEntry(journalEntry: JournalEntry, parent: NativePath)

  /** A schedule and the entries it refers to, however they are stored. */
  datatype PlanView = PlanView(schedule: seq<ExecutionStep>, entries: seq<FrozenEntry>)
  {
    function Entry(sourceId: u64): Option<FrozenEntry> {
      FindEntry(entries, sourceId)
    }

    /** Steps are only ever made by the schedule builder, which numbers them. */
    ghost predicate Indexed() {
      |schedule| <= USIZE_MAX && forall i :: 0 <= i < |schedule| ==> schedule[i].index == i
    }

    /** Every step has an entry with the identity of its directory. */
    ghost predicate Complete() {
      forall i :: 0 <= i < |schedule| ==> ForwardMove(this, i).Some?
    }
  }

  /** A plan as it is frozen: entries in the order of their source ids. */
  datatype FrozenExecutionPlan = FrozenExecutionPlan(
    planId: u64, sourceGeneration: u64, entries: seq<FrozenEntry>, schedule: seq<ExecutionStep>)
  {
    function View(): PlanView { PlanView(schedule, entries) }

    function InitialRecord(): JournalRecord
      requires |schedule| <= USIZE_MAX
    {
      TransactionStarted(planId, sourceGeneration, |schedule|, JournalEntries(entries))
    }

    ghost predicate WellFormed() {
      && View().Indexed()
      && entries != [] && |schedule| == 2 * |entries|
      && forall e :: e in entries ==> e.journalEntry.Constructible()
    }
  }

  function JournalEntries(entries: seq<FrozenEntry>): (r: seq<JournalEntry>)
    ensures |r| == |entries| && forall i :: 0 <= i < |r| ==> r[i] == entries[i].journalEntry
  {
    seq(|entries|, i requires 0 <= i < |entries| => entries[i].journalEntry)
  }

  function FindEntry(entries: seq<FrozenEntry>, sourceId: u64): (r: Option<FrozenEntry>)
    ensures r.Some? ==> r.value in entries && r.value.journalEntry.sourceId == sourceId
    ensures r.None? ==> forall e :: e in entries ==> e.journalEntry.sourceId != sourceId
  {
    if entries == [] then None
    else if entries[0].journalEntry.sourceId == sourceId then Some(entries[0])
    else FindEntry(entries[1..], sourceId)
  }

  function ForwardNames(entry: JournalEntry, phase: ExecutionPhase): (Name, Name) {
    match phase
    case SourceToTemporary => (entry.names.originalName, entry.names.temporaryName)
    case TemporaryToFinal => (entry.names.temporaryName, entry.names.finalName)
  }

  function RollbackNames(entry: JournalEntry, phase: ExecutionPhase): (Name, Name) {
    var (source, target) := ForwardNames(entry, phase);
    (target, source)
  }

  /** The rename that step `i` stands for. */
  function ForwardMove(plan: PlanView, i: nat): Option<Move>
    requires i < |plan.schedule|
  {
    var entry := plan.Entry(plan.schedule[i].sourceId);
    if entry.None? || entry.value.journalEntry.parentExecutionIdentity.None? then None
    else
      var e := entry.value.journalEntry;
      var (source, target) := ForwardNames(e, plan.schedule[i].phase);
      Some(Move(entry.value.parent, source, target, e.parentExecutionIdentity.value, e.executionIdentity))
  }

  lemma RollbackMoveIsReverse(plan: PlanView, i: nat)
    requires i < |plan.schedule| && ForwardMove(plan, i).Some?
    ensures var e := plan.Entry(plan.schedule[i].sourceId).value;
            var (source, target) := RollbackNames(e.journalEntry, plan.schedule[i].phase);
            Move(e.parent, source, target, e.journalEntry.parentExecutionIdentity.value, e.journalEntry.executionIdentity)
            == ForwardMove(plan, i).value.Reverse()
  {
  }

  /** A plan, the filesystem it starts from, the frame format of its journal and the header in it. */
  datatype Run = Run(plan: PlanView, parents: Parents, initial: Tree, write: FrameWriter, header: JournalRecord)
  {
    /** The journal is empty or starts with the header, and no batch is wider than the executor announces. */
    ghost predicate Authored(records: seq<JournalRecord>) {
      && (records == [] || records[0] == header)
      && forall i :: 0 <= i < |records| ==> BatchFits(records[i])
    }

    ghost function Steps(): nat { |plan.schedule| }

    /** The tree after the first `i` steps. */
    ghost function TreeAfter(i: nat): Tree
      requires i <= Steps()
    {
      if i == 0 then initial
      else
        var tree := TreeAfter(i - 1);
        var move := ForwardMove(plan, i - 1);
        if move.Some? && Enabled(tree, parents, move.value) then Moved(tree, move.value) else tree
    }

    ghost predicate StepPossible(i: nat)
      requires i < Steps()
    {
      ForwardMove(plan, i).Some? && Enabled(TreeAfter(i), parents, ForwardMove(plan, i).value)
    }

    /** The first `a` steps can be taken one after another, without replacing anything. */
    ghost predicate Possible(a: nat) {
      a <= Steps() && forall i :: 0 <= i < a ==> StepPossible(i)
    }

    ghost predicate Reached(tree: Tree, a: nat) {
      a <= Steps() && tree == TreeAfter(a) && Possible(a)
    }
  }

  predicate BatchFits(record: JournalRecord) {
    record.ForwardBatchPrepared? ==> record.batchSteps <= FORWARD_JOURNAL_BATCH_STEPS
  }

  /** Taking a rename back restores the tree exactly. */
  lemma ReverseUndoes(tree: Tree, parents: Parents, move: Move)
    requires Enabled(tree, parents, move)
    ensures Enabled(Moved(tree, move), parents, move.Reverse())
    ensures Moved(Moved(tree, move), move.Reverse()) == tree
  {
    var there := Moved(tree, move);
    assert move.To() in there && move.From() !in there;
    assert there - {move.To()} == tree - {move.From()};
  }

  // ---------------------------------------------------------------- explaining the tree

  /** The crash bracket: what a replayed mode says about the number of renames really applied. Forward
      it lies between the completed steps and those plus the prepared ones; backward it is the number of
      remaining steps, or one less only if the next of them is prepared. */
  ghost predicate Brackets(mode: ReplayMode, steps: nat, applied: nat) {
    match mode
    case Forward(next, _, prepared) => next <= applied <= next + |prepared|
    case Rollback(_, remaining, prepared) => applied == |remaining| || (prepared.Some? && applied == |remaining| - 1)
    case Stuck(_, _, remaining) => applied == |remaining|
    case Finished => applied == steps
    case Reverted(_) => applied == 0
  }

  ghost predicate Explained(steps: nat, records: seq<JournalRecord>, applied: nat) {
    forall x {:trigger Unsealed(ExplainedSeal, x)} :: Unsealed(ExplainedSeal, x) ==> IsExplained(steps, records, applied)
  }

  ghost predicate IsExplained(steps: nat, records: seq<JournalRecord>, applied: nat) {
    && ReplayAll(records).Success?
    && StepCount(records) == steps
    && Brackets(ReplayAll(records).value, steps, applied)
  }

  /** Records that a crash may leave behind: none at all while nothing has been renamed, or records that
      explain the tree. */
  ghost predicate Survivable(steps: nat, records: seq<JournalRecord>, applied: nat) {
    if records == [] then applied == 0 else Explained(steps, records, applied)
  }

  /** Whatever a crash leaves of the records, as long as it keeps the durable ones, explains the tree. */
  ghost predicate Safe(steps: nat, written: seq<JournalRecord>, durable: nat, applied: nat) {
    durable <= |written| && forall k :: durable <= k <= |written| ==> Survivable(steps, written[..k], applied)
  }

  lemma SafeExtended(steps: nat, written: seq<JournalRecord>, durable: nat, applied: nat, record: JournalRecord)
    requires Safe(steps, written, durable, applied) && Explained(steps, written + [record], applied)
    ensures Safe(steps, written + [record], durable, applied)
    ensures Safe(steps, written + [record], |written| + 1, applied)
  {
    var longer := written + [record];
    forall k | durable <= k <= |longer| ensures Survivable(steps, longer[..k], applied) {
      if k <= |written| {
        assert longer[..k] == written[..k];
      } else {
        assert longer[..k] == longer;
      }
    }
  }

  /** A fully synced journal is safe as soon as all of it explains the tree. */
  lemma SafeSynced(steps: nat, written: seq<JournalRecord>, applied: nat)
    requires written != [] && Explained(steps, written, applied)
    ensures Safe(steps, written, |written|, applied)
  {
    assert written[..|written|] == written;
  }

  /** The records do not replay to a terminal mode. */
  ghost predicate Pending(records: seq<JournalRecord>) {
    forall x {:trigger Unsealed(PendingSeal, x)} :: Unsealed(PendingSeal, x) ==>
      var mode := ReplayAll(records);
      mode.Success? ==> !mode.value.Finished? && !mode.value.Reverted?
  }

  /** The records replay to forward mode, with the steps from `next` to `end` prepared. */
  ghost predicate ForwardIn(records: seq<JournalRecord>, next: nat, end: nat)
    ensures ForwardIn(records, next, end) ==> next <= end && Pending(records)
  {
    var sealed := forall x {:trigger Unsealed(ForwardSeal, x)} :: Unsealed(ForwardSeal, x) ==> IsForwardIn(records, next, end);
    assert sealed ==> IsForwardIn(records, next, end) by { assert Unsealed(ForwardSeal, 0); }
    sealed
  }

  ghost predicate IsForwardIn(records: seq<JournalRecord>, next: nat, end: nat) {
    ReplayAll(records).Success? && ForwardAt(ReplayAll(records).value, next, end)
  }

  /** The records replay to rollback mode, with `k` steps remaining. */
  ghost predicate RollbackIn(records: seq<JournalRecord>, cause: RollbackCause, k: nat, prepared: bool)
    ensures RollbackIn(records, cause, k, prepared) ==> Pending(records)
  {
    var sealed := forall x {:trigger Unsealed(RollbackSeal, x)} :: Unsealed(RollbackSeal, x) ==> IsRollbackIn(records, cause, k, prepared);
    assert sealed ==> IsRollbackIn(records, cause, k, prepared) by { assert Unsealed(RollbackSeal, 0); }
    sealed
  }

  ghost predicate IsRollbackIn(records: seq<JournalRecord>, cause: RollbackCause, k: nat, prepared: bool) {
    ReplayAll(records).Success? && RollbackAt(ReplayAll(records).value, cause, k, prepared)
  }

  // ---------------------------------------------------------------- an announced batch

  /** Every surviving record list stands inside the same announced batch, at or before step `k`. */
  ghost predicate BatchOpen(steps: nat, written: seq<JournalRecord>, durable: nat, k: nat, end: nat) {
    forall x {:trigger Unsealed(BatchSeal, x)} :: Unsealed(BatchSeal, x) ==> IsBatchOpen(steps, written, durable, k, end)
  }

  ghost predicate IsBatchOpen(steps: nat, written: seq<JournalRecord>, durable: nat, k: nat, end: nat) {
    && 1 <= durable <= |written| && k <= end <= steps
    && forall j :: durable <= j <= |written| ==> InBatch(steps, written[..j], k, end)
  }

  ghost predicate InBatch(steps: nat, records: seq<JournalRecord>, k: nat, end: nat) {
    && ReplayAll(records).Success? && StepCount(records) == steps
    && var mode := ReplayAll(records).value;
       mode.Forward? && mode.nextStep <= k && ForwardAt(mode, mode.nextStep, end)
  }

  /** Inside a batch the journal explains the tree before and after the current step alike. */
  lemma BatchIsSafe(steps: nat, written: seq<JournalRecord>, durable: nat, k: nat, end: nat, applied: nat)
    requires BatchOpen(steps, written, durable, k, end) && k <= applied <= end
    ensures Safe(steps, written, durable, applied)
  {
    assert Unsealed(BatchSeal, 0) && Unsealed(ExplainedSeal, 0);
    forall j | durable <= j <= |written| ensures Survivable(steps, written[..j], applied) {
      assert InBatch(steps, written[..j], k, end);
      assert written[..j] != [];
    }
  }

  lemma BatchAdvances(steps: nat, written: seq<JournalRecord>, durable: nat, k: nat, end: nat, record: JournalRecord)
    requires BatchOpen(steps, written, durable, k, end) && k < end && ForwardIn(written, k, end)
    requires record.ForwardStepCompleted? && record.stepIndex == k
    ensures BatchOpen(steps, written + [record], durable, k + 1, end)
    ensures Explained(steps, written + [record], k + 1) && ForwardIn(written + [record], k + 1, end)
  {
    assert Unsealed(BatchSeal, 0) && Unsealed(ForwardSeal, 0) && Unsealed(ExplainedSeal, 0);
    assert written[..|written|] == written;
    assert InBatch(steps, written[..|written|], k, end);
    var longer := written + [record];
    ReplayAppend(written, record);
    assert Range(0, k) + [k] == Range(0, k + 1);
    assert Range(k, end)[1..] == Range(k + 1, end);
    forall j | durable <= j <= |longer| ensures InBatch(steps, longer[..j], k + 1, end) {
      if j <= |written| {
        assert longer[..j] == written[..j];
        assert InBatch(steps, written[..j], k, end);
      } else {
        assert longer[..j] == longer;
      }
    }
  }

  /** Announcing the next `count` steps opens a batch. */
  lemma BatchOpens(steps: nat, written: seq<JournalRecord>, record: JournalRecord, k: nat, count: nat)
    requires Explained(steps, written, k) && steps <= USIZE_MAX
    requires ForwardIn(written, k, k) && count > 0 && k + count <= steps
    requires record == if count == 1 then ForwardStepPrepared(k) else ForwardBatchPrepared(k, count)
    ensures Explained(steps, written + [record], k)
    ensures ForwardIn(written + [record], k, k + count)
    ensures BatchOpen(steps, written + [record], |written| + 1, k, k + count)
  {
    assert Unsealed(BatchSeal, 0) && Unsealed(ForwardSeal, 0) && Unsealed(ExplainedSeal, 0);
    ReplayAppend(written, record);
    assert Range(k, k) == [];
    if count == 1 {
      assert [k] == Range(k, k + 1);
    }
    var longer := written + [record];
    assert longer[..|longer|] == longer;
  }

  // ---------------------------------------------------------------- starting and walking a rollback

  lemma RollbackBegins(steps: nat, records: seq<JournalRecord>, cause: RollbackCause, k: nat, end: nat)
    requires Explained(steps, records, k)
    requires ForwardIn(records, k, end) && RollbackAdmitted(cause, k, Range(k, end)).Success?
    ensures Explained(steps, records + [RollbackStarted(cause)], k)
    ensures RollbackIn(records + [RollbackStarted(cause)], cause, k, false)
  {
    assert Unsealed(ExplainedSeal, 0) && Unsealed(ForwardSeal, 0) && Unsealed(RollbackSeal, 0);
    ReplayAppend(records, RollbackStarted(cause));
    assert Reversed(Range(0, k)) == Countdown(k);
  }

  lemma RollbackPrepares(steps: nat, records: seq<JournalRecord>, cause: RollbackCause, k: nat)
    requires Explained(steps, records, k) && 0 < k <= USIZE_MAX
    requires RollbackIn(records, cause, k, false)
    ensures var longer := records + [RollbackStepPrepared(k - 1)];
            && Explained(steps, longer, k) && Explained(steps, longer, k - 1)
            && RollbackIn(longer, cause, k, true)
  {
    assert Unsealed(ExplainedSeal, 0) && Unsealed(RollbackSeal, 0);
    ReplayAppend(records, RollbackStepPrepared(k - 1));
  }

  lemma RollbackSteps(steps: nat, records: seq<JournalRecord>, cause: RollbackCause, k: nat, applied: nat, identity: ExecutionIdentity)
    requires Explained(steps, records, applied) && 0 < k <= USIZE_MAX
    requires RollbackIn(records, cause, k, true)
    ensures var longer := records + [RollbackStepCompleted(k - 1, identity)];
            Explained(steps, longer, k - 1) && RollbackIn(longer, cause, k - 1, false)
  {
    assert Unsealed(ExplainedSeal, 0) && Unsealed(RollbackSeal, 0);
    ReplayAppend(records, RollbackStepCompleted(k - 1, identity));
    assert Countdown(k)[1..] == Countdown(k - 1);
  }

  /** Which step the replayed status waits for, going forward... */
  lemma ForwardStatus(steps: nat, records: seq<JournalRecord>, applied: nat, next: nat, end: nat)
    requires Explained(steps, records, applied) && ForwardIn(records, next, end) && next < steps
    ensures Replayed(records) == Success(if next < end then ReconciliationRequired(Forwards, next) else ForwardPending(next))
  {
    assert Unsealed(ExplainedSeal, 0) && Unsealed(ForwardSeal, 0);
  }

  /** ...and going back. */
  lemma RollbackStatus(steps: nat, records: seq<JournalRecord>, applied: nat, cause: RollbackCause, k: nat, prepared: bool)
    requires Explained(steps, records, applied) && RollbackIn(records, cause, k, prepared) && k > 0
    ensures Replayed(records) == Success(if prepared then ReconciliationRequired(Backwards, k - 1) else RollbackPending(cause, k - 1))
  {
    assert Unsealed(ExplainedSeal, 0) && Unsealed(RollbackSeal, 0);
  }

  lemma RollbackFails(steps: nat, records: seq<JournalRecord>, cause: RollbackCause, k: nat, applied: nat)
    requires Explained(steps, records, applied) && 0 < k <= USIZE_MAX
    requires RollbackIn(records, cause, k, true)
    ensures var longer := records + [RollbackStepFailed(k - 1)];
            Explained(steps, longer, k) && Pending(longer) && Replayed(longer) == Success(RecoveryRequired(cause, k - 1))
  {
    assert Unsealed(ExplainedSeal, 0) && Unsealed(RollbackSeal, 0) && Unsealed(PendingSeal, 0);
    ReplayAppend(records, RollbackStepFailed(k - 1));
  }

  lemma RollbackEnds(steps: nat, records: seq<JournalRecord>, cause: RollbackCause)
    requires Explained(steps, records, 0)
    requires RollbackIn(records, cause, 0, false)
    ensures Explained(steps, records + [TransactionRolledBack], 0)
    ensures Replayed(records + [TransactionRolledBack]) == Success(RolledBack(cause))
  {
    assert Unsealed(ExplainedSeal, 0) && Unsealed(RollbackSeal, 0);
    ReplayAppend(records, TransactionRolledBack);
  }

  lemma ForwardEnds(steps: nat, records: seq<JournalRecord>)
    requires Explained(steps, records, steps)
    requires ForwardIn(records, steps, steps)
    ensures Explained(steps, records + [TransactionCompleted], steps)
    ensures Replayed(records + [TransactionCompleted]) == Success(Completed)
  {
    assert Unsealed(ExplainedSeal, 0) && Unsealed(ForwardSeal, 0);
    ReplayAppend(records, TransactionCompleted);
  }
}
