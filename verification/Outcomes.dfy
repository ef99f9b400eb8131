/** All or nothing: what the outcome of a run says about the tree, from the preview to the last rename. */
module Outcomes {
  import opened Primitives
  import opened LittleEndian
  import opened Execution
  import opened Replay
  import opened RecordCodec
  import opened Frames
  import opened Journal
  import opened Machine
  import opened Appender
  import opened Transaction
  import opened Plans
  import opened Lookup
  import opened Course
  import opened Executor
  import opened Crash
  import opened Cycles
  import opened Registry
  import opened PlanRows
  import opened Planner
  import opened Freeze
  import opened FrozenPlans
  import opened Undo
  import opened RoundTrip
  import opened RecoveryState
  import opened Recovery

  const MAX_STEP_FRAME_BYTES: nat := 64

  /** Records other than the header are small: they are always encoded. */
  lemma StepRecordsFit(crc: Checksum, version: u16, sequence: nat, record: JournalRecord)
    requires sequence <= U64_MAX && !record.TransactionStarted?
    requires record.ForwardBatchPrepared? ==> version >= JOURNAL_SCHEMA_VERSION
    ensures Writer(crc, version)(sequence, record).Success?
    ensures |Writer(crc, version)(sequence, record).value| <= MAX_STEP_FRAME_BYTES
  {
    Widths();
  }

  /** A header that can be encoded has so few sources that the journal never runs out of sequence numbers. */
  lemma HeadersBoundSteps(crc: Checksum, version: u16, run: Run)
    requires Plotted(run) && run.header.TransactionStarted? && run.header.entries == JournalEntries(run.plan.entries)
    requires Writer(crc, version)(0, run.header).Success?
    ensures run.Steps() <= 2 * MAX_ADMITTED_SOURCES
  {
  }

  lemma StepRecordsAreWritten(crc: Checksum, version: u16)
    ensures WritesSteps(Writer(crc, version), version)
  {
    forall sequence: nat, record: JournalRecord |
      sequence < U64_MAX && !record.TransactionStarted? && (record.ForwardBatchPrepared? ==> version >= JOURNAL_SCHEMA_VERSION)
      ensures Writer(crc, version)(sequence, record).Success?
    {
      StepRecordsFit(crc, version, sequence, record);
    }
  }

  /** The tree is the one after some first steps of the plan. */
  ghost predicate StandsAt(run: Run, tree: Tree, k: nat) {
    run.Reached(tree, k) && Laid(run, tree, k)
  }

  /** Nothing is lost or duplicated, and names outside the plan are as they were. */
  ghost predicate Conserved(run: Run, tree: Tree) {
    && tree.Values == run.initial.Values && |tree| == |run.initial|
    && (Injective(run.initial) ==> Injective(tree))
    && forall at :: !IsEndpoint(run.plan, at) ==> SameAt(tree, run.initial, at)
  }

  lemma ReachedIsConserved(run: Run, k: nat)
    requires k <= run.Steps()
    ensures Conserved(run, run.TreeAfter(k))
  {
    RunsConserve(run, k);
    forall at | !IsEndpoint(run.plan, at) ensures SameAt(run.TreeAfter(k), run.initial, at) {
      RunsKeepUnplannedNames(run, k, at);
    }
  }

  /** All or nothing: finished means every source under its final name and nothing else touched, taken back
      means the very tree of the beginning, and anything else means the tree after some first steps. */
  lemma OutcomesMean(run: Run, journal: DurableAppender, outcome: ExecutionOutcome)
    requires Plotted(run) && Concluded(run, journal, outcome)
    ensures outcome == ExecutionOutcome.Finished ==> StandsAt(run, journal.sink.tree, run.Steps())
    ensures outcome.TakenBack? ==> journal.sink.tree == run.initial
    ensures exists k :: StandsAt(run, journal.sink.tree, k)
    ensures Conserved(run, journal.sink.tree)
  {
    assert Unsealed(ConcludedSeal, 0);
    var k :| Consistent(run, journal, k);
    StandsWhereConsistent(run, journal, k);
    ReachedIsConserved(run, k);
    match outcome {
      case Finished => StandsWhereConsistent(run, journal, run.Steps());
      case TakenBack(_) => StandsWhereConsistent(run, journal, 0);
      case NeedsRecovery(_, _, _) =>
    }
  }

  /** What is reported as finished, taken back or stuck stays so: whatever part of the journal survives a crash,
      as long as it keeps the synced bytes, replays to that very status. */
  ghost predicate Endures(crc: Checksum, outcome: ExecutionOutcome, m: Moment) {
    Measured(Reader(crc)) &&
    forall cut :: m.syncedLength <= cut <= |m.file| ==> IsOnRecord(outcome, Replayed(SurvivingRecords(crc, m.file[..cut])))
  }

  /** The status is the one that an end is reported with. */
  ghost predicate IsOnRecord(outcome: ExecutionOutcome, status: Result<JournalStatus, JournalReplayError>) {
    && (outcome == ExecutionOutcome.Finished ==> status == Success(Completed))
    && (outcome.TakenBack? ==> status == Success(RolledBack(outcome.cause)))
    && (IsStuck(outcome) ==> outcome.stepIndex.Some? && status.Success? && status.value.RecoveryRequired?
                             && status.value.failedStep == outcome.stepIndex.value)
  }

  predicate IsStuck(outcome: ExecutionOutcome) {
    outcome.NeedsRecovery? && outcome.reason.RollbackFailed?
  }

  /** The cause is on record in what is left of the journal file. */
  lemma CausesCarryOver(records: seq<JournalRecord>, left: seq<JournalRecord>, outcome: ExecutionOutcome, first: nat, end: nat,
                        shouldCancel: nat -> bool)
    requires HasCause(records, outcome, first, end, shouldCancel) && (IsStuck(outcome) ==> records == left)
    ensures HasCause(left, outcome, first, end, shouldCancel)
  {
    assert UnsealedAt(ReportSeal, outcome, 0);
    if outcome.TakenBack? || IsStuck(outcome) {
      var cause :| Blames(records, outcome, cause) && IsCause(cause, first, end, shouldCancel);
      assert UnsealedAt(ReportSeal, cause, 0);
      assert Blames(left, outcome, cause);
    }
  }

  /** A journal that has come to its end survives every crash as it is. */
  lemma EndedSurvives(crc: Checksum, journal: DurableAppender)
    requires journal.Valid() && journal.write == Writer(crc, JOURNAL_SCHEMA_VERSION) && Ended(journal)
    ensures Measured(Reader(crc)) && journal.sink.syncedLength <= |journal.sink.file|
    ensures forall cut :: journal.sink.syncedLength <= cut <= |journal.sink.file| ==>
              SurvivingRecords(crc, journal.sink.file[..cut]) == journal.Accepted()
    ensures SurvivingRecords(crc, journal.sink.file) == journal.Accepted()
  {
    var m := journal.sink.Now();
    assert |m.file| >= m.syncedLength by {
      assert Unsealed(FaithfulSeal, 0);
      assert m.written[..m.durable] == m.written;
    }
    ReaderIsSound(crc);
    forall cut | m.syncedLength <= cut <= |m.file|
      ensures SurvivingRecords(crc, m.file[..cut]) == journal.Accepted()
    {
      var k := SurvivorsArePrefix(crc, JOURNAL_SCHEMA_VERSION, m, cut);
      assert m.written[..k] == m.written;
    }
    assert m.file[..|m.file|] == m.file;
  }

  lemma ConcludedIsOnRecord(run: Run, journal: DurableAppender, outcome: ExecutionOutcome)
    requires Concluded(run, journal, outcome)
    ensures !outcome.NeedsRecovery? || IsStuck(outcome) ==> Ended(journal)
    ensures IsOnRecord(outcome, Replayed(journal.Accepted()))
  {
    assert Executor.Keeps(run, journal, outcome) by { assert Unsealed(ConcludedSeal, 0); }
    if IsStuck(outcome) {
      assert Unsealed(ReportSeal, 0);
    }
  }

  lemma OutcomesEndure(crc: Checksum, run: Run, journal: DurableAppender, outcome: ExecutionOutcome)
    requires run.write == Writer(crc, JOURNAL_SCHEMA_VERSION) && Concluded(run, journal, outcome)
    ensures Endures(crc, outcome, journal.sink.Now())
    ensures IsStuck(outcome) ==> SurvivingRecords(crc, journal.sink.file) == journal.Accepted()
  {
    ReaderIsSound(crc);
    ConcludedIsOnRecord(run, journal, outcome);
    assert journal.write == run.write by { assert Unsealed(ConcludedSeal, 0); }
    if !outcome.NeedsRecovery? || IsStuck(outcome) {
      EndedSurvives(crc, journal);
    }
  }

  lemma StandsWhereConsistent(run: Run, journal: DurableAppender, k: nat)
    requires Plotted(run) && Consistent(run, journal, k)
    ensures StandsAt(run, journal.sink.tree, k)
  {
    assert Unsealed(SoundSeal, 0);
    ReachedIsLaid(run, k);
  }

  lemma ApplicablePlansChangeSomething(plan: RenamePlan)
    requires plan.CanApply() && plan.changedCount == CountStatus(plan.rows, Changed)
    ensures ChangedRows(plan.rows) != []
  {
    CountedIsThere(plan.rows, Changed);
    var i :| 0 <= i < |plan.rows| && plan.rows[i].status.Changed?;
    ChangedRowsAreRows(plan.rows, plan.rows[i]);
  }

  /** Why a plan is not frozen: it cannot be applied, is out of date, or one of its rows is refused. */
  ghost predicate IsRefused(c: Contents, generation: u64, plan: RenamePlan, fs: FileSystem, error: FreezeError) {
    if !plan.CanApply() then error == FreezeError(None, PlanNotApplicable)
    else if plan.generation != generation then error == FreezeError(None, GenerationMismatch(plan.generation, generation))
    else RowsRefused(c, plan, fs, error) || (error.kind.ScheduleFailed? && 2 * |ChangedRows(plan.rows)| > USIZE_MAX)
  }

  datatype ApplyResult =
    | NotFrozen(freezing: FreezeError)
    | NotStarted(storage: JournalStorageErrorKind)
    | Executed(outcome: ExecutionOutcome)

  /** What an outcome says about the tree that the run leaves behind. */
  ghost predicate Means(run: Run, outcome: ExecutionOutcome, tree: Tree) {
    && !IsInvalidPlan(outcome) && Conserved(run, tree)
    && (exists k :: StandsAt(run, tree, k))
    && (outcome == ExecutionOutcome.Finished ==> StandsAt(run, tree, run.Steps()))
    && (outcome.TakenBack? ==> tree == run.initial)
  }

  /** The file of a run that has come to an end holds whole frames only. */
  ghost predicate IsWhole(crc: Checksum, outcome: ExecutionOutcome, m: Moment) {
    Measured(Reader(crc)) && (!outcome.NeedsRecovery? || IsStuck(outcome) ==> Inspected(Reader(crc), m.file).issue.None?)
  }

  lemma EndedIsWhole(crc: Checksum, run: Run, journal: DurableAppender, outcome: ExecutionOutcome)
    requires run.write == Writer(crc, JOURNAL_SCHEMA_VERSION) && Concluded(run, journal, outcome)
    ensures IsWhole(crc, outcome, journal.sink.Now())
  {
    ConcludedIsOnRecord(run, journal, outcome);
    assert journal.write == run.write by { assert Unsealed(ConcludedSeal, 0); }
    FaithfulInspects(crc, JOURNAL_SCHEMA_VERSION, journal.sink.Now());
  }

  /** Every end of a run: what the outcome says of the tree, that it stays, and that its cause is on record. */
  ghost predicate Ends(run: Run, crc: Checksum, now: Moment, shouldCancel: nat -> bool, outcome: ExecutionOutcome) {
    forall x {:trigger UnsealedAt(EndSeal, now, x)} :: UnsealedAt(EndSeal, now, x) ==>
      && Means(run, outcome, now.tree) && Endures(crc, outcome, now) && IsWhole(crc, outcome, now)
      && HasCause(SurvivingRecords(crc, now.file), outcome, 0, run.Steps(), shouldCancel)
  }

  lemma FinishedStands(run: Run, crc: Checksum, now: Moment, shouldCancel: nat -> bool)
    requires Ends(run, crc, now, shouldCancel, ExecutionOutcome.Finished)
    ensures StandsAt(run, now.tree, run.Steps())
  {
    assert UnsealedAt(EndSeal, now, 0);
  }

  ghost predicate CrashSafeThroughout(crc: Checksum, run: Run, history: seq<Moment>) {
    Measured(Reader(crc)) && forall i :: 0 <= i < |history| ==> CrashSafe(crc, run, history[i])
  }

  /** Nothing goes wrong with the journal file, and its header fits into a frame. */
  ghost predicate Unimpeded(run: Run, disk: Machine)
    reads disk
  {
    disk.Writable() && run.write(0, run.header).Success?
  }

  /** What a run comes to that only renames can hinder; it finishes if and only if nobody cancels, no rename
      fails and the temporary names keep clear of the final ones. */
  ghost predicate IsAim(run: Run, faults: RenameFaults, at: nat, shouldCancel: nat -> bool, outcome: ExecutionOutcome) {
    && run.Steps() <= USIZE_MAX && run.plan.Complete() && outcome == Aim(run, faults, at, 0, shouldCancel)
    && (outcome == ExecutionOutcome.Finished <==>
          Unobstructed(run.plan.entries) && !CancelledFrom(run, 0, shouldCancel) && NoneFails(faults, at, run.Steps()))
  }

  /** Executes a plan that meets the hypotheses of the cycle theorem. */
  method ExecutePlotted(plan: FrozenExecutionPlan, disk: Machine, crc: Checksum, shouldCancel: nat -> bool, ghost run: Run)
    returns (r: Result<ExecutionOutcome, JournalStorageErrorKind>)
    requires plan.WellFormed() && plan.View().Complete() && Ordered(plan.View()) && Plotted(run)
    requires run == Run(plan.View(), disk.parents, disk.tree, Writer(crc, JOURNAL_SCHEMA_VERSION), plan.InitialRecord())
    requires disk.Now() == Moment(disk.tree, [], 0, [], 0, []) && disk.history == []
    modifies disk
    ensures SafeHistory(run, disk.history) && CrashSafeThroughout(crc, run, disk.history)
    ensures r.Success? ==> Ends(run, crc, disk.Now(), shouldCancel, r.value)
    ensures r.Failure? ==> disk.tree == old(disk.tree)
    ensures r == Success(ExecutionOutcome.Finished) ==> !CancelledFrom(run, 0, shouldCancel)
    ensures r == Executing(run, FatesOf(disk, run.write), old(SpentOn(disk)), shouldCancel)
    ensures Unimpeded(run, disk) ==> r.Success? && IsAim(run, disk.renameFaults, old(disk.renames), shouldCancel, r.value)
  {
    ghost var spent := SpentOn(disk);
    if Unimpeded(run, disk) {
      HeadersHaveAuthority(plan);
      UnimpededRunsAreAimed(run, crc, FatesOf(disk, run.write), spent, shouldCancel);
    }
    var journal;
    r, journal := ExecuteFrozenPlan(plan, disk, Writer(crc, JOURNAL_SCHEMA_VERSION), shouldCancel);
    ReaderIsSound(crc);
    forall i | 0 <= i < |disk.history| ensures CrashSafe(crc, run, disk.history[i]) {
      CrashBracket(crc, JOURNAL_SCHEMA_VERSION, run, disk.history, i);
    }
    if r.Success? {
      OutcomesMean(run, journal, r.value);
      OutcomesEndure(crc, run, journal, r.value);
      EndedIsWhole(crc, run, journal, r.value);
      CausesCarryOver(journal.Accepted(), SurvivingRecords(crc, disk.file), r.value, 0, run.Steps(), shouldCancel);
    }
  }

  /** With a journal file that works, a run comes to its aim. */
  lemma UnimpededRunsAreAimed(run: Run, crc: Checksum, fates: Fates, spent: Spent, shouldCancel: nat -> bool)
    requires Plotted(run) && run.Steps() <= USIZE_MAX && run.plan.Complete() && HasParentAuthority(run.header)
    requires run.header.entries == JournalEntries(run.plan.entries)
    requires run.write == Writer(crc, JOURNAL_SCHEMA_VERSION) && run.write(0, run.header).Success?
    requires fates.write == run.write && fates.version == JOURNAL_SCHEMA_VERSION && spent.sequence == 0
    requires forall i :: fates.writes(i).Whole? && fates.syncs(i).None?
    ensures var r := Executing(run, fates, spent, shouldCancel);
            r.Success? && IsAim(run, fates.renames, spent.renames, shouldCancel, r.value)
  {
    StepRecordsAreWritten(crc, JOURNAL_SCHEMA_VERSION);
    HeadersBoundSteps(crc, JOURNAL_SCHEMA_VERSION, run);
    var started := Entered(fates, spent, run.header, true).value;
    GoingIsAimed(run, fates, started, 0, shouldCancel);
    AimIsToFinish(run, fates.renames, spent.renames, 0, shouldCancel);
    CyclesSucceed(run);
  }

  /** The run of a plan that was frozen on this filesystem. */
  ghost predicate IsFrozenRun(c: Contents, plan: RenamePlan, fs: FileSystem, crc: Checksum, run: Run) {
    exists frozen, unordered ::
      && Frozen(c, plan, fs, frozen, unordered)
      && run == Run(frozen.View(), fs.parents, fs.tree, Writer(crc, JOURNAL_SCHEMA_VERSION), frozen.InitialRecord())
  }

  /** The row's source is under its new name. */
  ghost predicate IsRenamed(c: Contents, tree: Tree, row: PlanRow) {
    && row.sourceId in c.paths && row.sourceId in c.executionIdentities
    && var at := Location(c.paths[row.sourceId].parent, row.proposedName);
       at in tree && tree[at] == Node(c.executionIdentities[row.sourceId], true)
  }

  lemma FinishedRenames(run: Run, c: Contents, plan: RenamePlan, fs: FileSystem, unordered: seq<FrozenEntry>, tree: Tree, row: PlanRow)
    requires FrozenPlans.Pending(run, c, plan, fs, unordered) && Plotted(run) && Laid(run, tree, run.Steps())
    requires row in plan.rows && row.status.Changed?
    ensures IsRenamed(c, tree, row)
  {
    ChangedRowsAreRows(plan.rows, row);
    var i := EntryOf(run, c, plan, fs, unordered, row);
    assert Spot(run.plan.entries, i, run.Steps()) == FinalAt(run.plan.entries[i]);
    assert UnsealedAt(LaidSeal, tree, 0);
  }

  lemma AllAreRenamed(run: Run, c: Contents, plan: RenamePlan, fs: FileSystem, unordered: seq<FrozenEntry>, tree: Tree)
    requires FrozenPlans.Pending(run, c, plan, fs, unordered) && Plotted(run) && Laid(run, tree, run.Steps())
    ensures forall row :: row in plan.rows && row.status.Changed? ==> IsRenamed(c, tree, row)
  {
    forall row | row in plan.rows && row.status.Changed? ensures IsRenamed(c, tree, row) {
      FinishedRenames(run, c, plan, fs, unordered, tree, row);
    }
  }

  /** A frozen plan is ready to be executed, and to be recovered after a crash. */
  lemma FrozenIsReady(run: Run, c: Contents, nextSourceId: u64, nextParentId: u64, plan: RenamePlan, fs: FileSystem,
                      frozen: FrozenExecutionPlan, unordered: seq<FrozenEntry>)
    requires Frozen(c, plan, fs, frozen, unordered) && plan.CanApply() && plan.changedCount == CountStatus(plan.rows, Changed)
    requires Coherent(c, nextSourceId, nextParentId) && NamesApart(plan.rows) && Injective(fs.tree) && fs.Honest()
    requires run == Run(frozen.View(), fs.parents, fs.tree, run.write, frozen.InitialRecord())
    ensures frozen.WellFormed() && frozen.View().Complete() && Plotted(run)
    ensures Renames(plan.rows) ==> Recoverable(run)
  {
    ApplicablePlansChangeSomething(plan);
    FrozenIsComplete(c, plan, fs, frozen, unordered);
    FrozenIsPlotted(run, c, nextSourceId, nextParentId, plan, fs, frozen, unordered);
    if Renames(plan.rows) {
      FrozenIsRecoverable(run, c, nextSourceId, nextParentId, plan, fs, frozen, unordered);
    }
  }

  /** Freezes a previewed plan and executes it on the same disk. */
  method Apply(registry: SourceRegistry, plan: RenamePlan, disk: Machine, trouble: Location -> Option<ExecutionFsErrorKind>,
               crc: Checksum, shouldCancel: nat -> bool)
    returns (r: ApplyResult, ghost run: Run)
    requires registry.Valid() && !registry.IdsExhausted()
    requires NamesApart(plan.rows) && plan.changedCount == CountStatus(plan.rows, Changed)
    requires FileSystem(disk.tree, disk.parents, trouble).Honest() && Injective(disk.tree)
    requires disk.Now() == Moment(disk.tree, [], 0, [], 0, []) && disk.history == []
    modifies disk
    ensures var fs := FileSystem(old(disk.tree), disk.parents, trouble);
            if r.NotFrozen? then IsRefused(registry.Now(), registry.generation, plan, fs, r.freezing)
            else IsFrozenRun(registry.Now(), plan, fs, crc, run) && Plotted(run)
    ensures var fs := FileSystem(old(disk.tree), disk.parents, trouble);
            plan.CanApply() && plan.generation == registry.generation && CheckedRows(registry.Now(), plan, fs) ==>
              fs.Untroubled() && Uncrowded(fs) ==> !r.NotFrozen?
    ensures !r.Executed? ==> disk.tree == old(disk.tree)
    ensures !r.NotFrozen? ==> SafeHistory(run, disk.history) && CrashSafeThroughout(crc, run, disk.history)
    ensures !r.NotFrozen? && Renames(plan.rows) ==> Recoverable(run)
    ensures r.Executed? ==> Ends(run, crc, disk.Now(), shouldCancel, r.outcome)
    ensures r.Executed? && r.outcome == ExecutionOutcome.Finished ==>
              forall row :: row in plan.rows && row.status.Changed? ==> IsRenamed(registry.Now(), disk.tree, row)
    ensures !r.NotFrozen? && Unimpeded(run, disk) ==>
              r.Executed? && IsAim(run, disk.renameFaults, old(disk.renames), shouldCancel, r.outcome)
  {
    ghost var c := registry.Now();
    var fs := FileSystem(disk.tree, disk.parents, trouble);
    var frozen, unordered := FreezeExecutionPlan(registry, plan, fs);
    var write := Writer(crc, JOURNAL_SCHEMA_VERSION);
    run := Run(PlanView([], []), disk.parents, disk.tree, write, TransactionCompleted);
    if plan.CanApply() {
      ApplicablePlansChangeSomething(plan);
    }
    if frozen.Failure? {
      return NotFrozen(frozen.error), run;
    }
    run := Run(frozen.value.View(), disk.parents, disk.tree, write, frozen.value.InitialRecord());
    FrozenIsReady(run, c, registry.nextSourceId, registry.nextParentId, plan, fs, frozen.value, unordered);
    var result := ExecutePlotted(frozen.value, disk, crc, shouldCancel, run);
    if result.Failure? {
      return NotStarted(result.error), run;
    }
    if result.value == ExecutionOutcome.Finished {
      FinishedStands(run, crc, disk.Now(), shouldCancel);
      AllAreRenamed(run, c, plan, fs, unordered, disk.tree);
    }
    return Executed(result.value), run;
  }

  lemma HeadersHaveAuthority(frozen: FrozenExecutionPlan)
    requires frozen.WellFormed() && frozen.View().Complete()
    requires Ordered(frozen.View())
    ensures HasParentAuthority(frozen.InitialRecord())
  {
    var view := frozen.View();
    forall e | e in frozen.InitialRecord().entries ensures e.parentExecutionIdentity.Some? {
      var i :| 0 <= i < |view.entries| && view.entries[i].journalEntry == e;
      EntryIsUnique(view.entries, i);
      assert ForwardMove(view, i).Some?;
    }
  }

  // ---------------------------------------------------------------- taking a finished transaction back

  datatype UndoResult =
    | NotPrepared(undoing: UndoError)
    | UndoNotStarted(undoStorage: JournalStorageErrorKind)
    | Undone(undoOutcome: ExecutionOutcome)

  ghost predicate IsRestored(tree: Tree, original: JournalEntry)
    requires original.nativeParent.Some?
  {
    var at := OriginalAt(Home(original));
    at in tree && tree[at] == Node(original.executionIdentity, true)
  }

  /** Prepares an undo from the journal of a finished transaction and executes it on the same disk. */
  method ApplyUndo(records: seq<JournalRecord>, inspection: UndoInspection, planId: u64, disk: Machine,
                   trouble: Location -> Option<ExecutionFsErrorKind>, key: ComparisonKey, crc: Checksum,
                   shouldCancel: nat -> bool, ghost first: Run)
    returns (r: UndoResult, ghost run: Run)
    requires Admissible(key, records) ==> OriginalsApart(records[0].entries)
    requires FileSystem(disk.tree, disk.parents, trouble).Honest() && Injective(disk.tree)
    requires disk.Now() == Moment(disk.tree, [], 0, [], 0, []) && disk.history == []
    modifies disk
    ensures var fs := FileSystem(old(disk.tree), disk.parents, trouble);
            if r.NotPrepared? then
              && UndoRefused(fs, key, records, inspection, planId, r.undoing)
              && (IsReady(fs, key, records, inspection) && DistinctOriginals(records[0].entries) ==> !Uncrowded(fs))
            else
              Admissible(key, records) && IsPreparedRun(run, fs, key, planId, records, crc) && Plotted(run)
    ensures !r.Undone? ==> disk.tree == old(disk.tree)
    ensures !r.NotPrepared? ==> SafeHistory(run, disk.history) && CrashSafeThroughout(crc, run, disk.history)
    ensures !r.NotPrepared? && AllRenamed(records[0].entries) ==> Recoverable(run)
    ensures r.Undone? ==> Ends(run, crc, disk.Now(), shouldCancel, r.undoOutcome)
    ensures r.Undone? && r.undoOutcome == ExecutionOutcome.Finished ==>
              forall original :: original in records[0].entries ==> IsRestored(disk.tree, original)
    ensures r.Undone? && r.undoOutcome == ExecutionOutcome.Finished && Follows(first, records[0].entries, old(disk.tree)) ==>
              disk.tree == first.initial
    ensures !r.NotPrepared? && Unimpeded(run, disk) ==>
              r.Undone? && IsAim(run, disk.renameFaults, old(disk.renames), shouldCancel, r.undoOutcome)
  {
    var fs := FileSystem(disk.tree, disk.parents, trouble);
    var prepared, unordered := PrepareUndo(records, inspection, planId, fs, key);
    var write := Writer(crc, JOURNAL_SCHEMA_VERSION);
    run := Run(PlanView([], []), disk.parents, disk.tree, write, TransactionCompleted);
    if prepared.Failure? {
      return NotPrepared(prepared.error), run;
    }
    var originals := records[0].entries;
    run := Run(prepared.value.View(), disk.parents, disk.tree, write, prepared.value.InitialRecord());
    assert Prepared(run, fs, key, planId, records[0].planId, originals, unordered);
    assert IsPreparedRun(run, fs, key, planId, records, crc);
    PreparedIsReady(run, fs, key, planId, records[0].planId, originals, unordered, prepared.value);
    var result := ExecutePlotted(prepared.value, disk, crc, shouldCancel, run);
    if result.Failure? {
      return UndoNotStarted(result.error), run;
    }
    if result.value == ExecutionOutcome.Finished {
      FinishedStands(run, crc, disk.Now(), shouldCancel);
      UndoRestoresNames(run, fs, key, planId, records[0].planId, originals, unordered);
      if Follows(first, originals, fs.tree) {
        UndoIsInverse(first, run, fs, key, planId, records[0].planId, originals, unordered);
      }
    }
    return Undone(result.value), run;
  }

  /** The run that takes the transaction of these records back, under the new plan id. */
  ghost predicate IsPreparedRun(run: Run, fs: FileSystem, key: ComparisonKey, planId: u64, records: seq<JournalRecord>, crc: Checksum)
    requires Admissible(key, records)
  {
    exists unordered ::
      && Prepared(run, fs, key, planId, records[0].planId, records[0].entries, unordered)
      && run.Steps() <= USIZE_MAX && run.write == Writer(crc, JOURNAL_SCHEMA_VERSION)
      && run.header == TransactionStarted(planId, records[0].sourceGeneration, run.Steps(), JournalEntries(run.plan.entries))
  }

  /** The disk is as a finished transaction with this header left it. */
  ghost predicate Follows(first: Run, originals: seq<JournalEntry>, tree: Tree) {
    && Plotted(first) && HeaderOf(first, originals) && Injective(first.initial)
    && first.Possible(first.Steps()) && tree == first.TreeAfter(first.Steps())
  }

  lemma PreparedIsComplete(run: Run, fs: FileSystem, key: ComparisonKey, planId: u64, originalPlanId: u64,
                           originals: seq<JournalEntry>, unordered: seq<FrozenEntry>, plan: FrozenExecutionPlan)
    requires Prepared(run, fs, key, planId, originalPlanId, originals, unordered) && originals != []
    requires run.plan == plan.View() && plan.View().Indexed()
    ensures plan.WellFormed() && plan.View().Complete()
  {
    SameEntriesSameIds(plan.entries, unordered);
    forall i | 0 <= i < |plan.entries|
      ensures plan.entries[i].journalEntry.parentExecutionIdentity.Some? && plan.entries[i].journalEntry.nativeParent.Some?
    {
      var p := Partner(run, fs, key, planId, originalPlanId, originals, unordered, i);
    }
    forall k | 0 <= k < |run.plan.schedule| ensures ForwardMove(run.plan, k).Some? {
      StepMoves(run.plan, k);
    }
  }

  /** A prepared undo is ready to be executed, and to be recovered after a crash. */
  lemma PreparedIsReady(run: Run, fs: FileSystem, key: ComparisonKey, planId: u64, originalPlanId: u64,
                        originals: seq<JournalEntry>, unordered: seq<FrozenEntry>, plan: FrozenExecutionPlan)
    requires Prepared(run, fs, key, planId, originalPlanId, originals, unordered) && originals != []
    requires OriginalsApart(originals) && Injective(fs.tree) && fs.Honest()
    requires run.plan == plan.View() && plan.View().Indexed()
    requires run.header.TransactionStarted? && run.header.entries == JournalEntries(run.plan.entries)
    ensures plan.WellFormed() && plan.View().Complete() && Plotted(run)
    ensures AllRenamed(originals) ==> Recoverable(run)
  {
    UndoIsPlotted(run, fs, key, planId, originalPlanId, originals, unordered);
    PreparedIsComplete(run, fs, key, planId, originalPlanId, originals, unordered, plan);
    if AllRenamed(originals) {
      UndoIsRecoverable(run, fs, key, planId, originalPlanId, originals, unordered);
    }
  }

  /** In a frozen plan no two final names of a directory compare equal. */
  lemma FrozenKeysApart(run: Run, c: Contents, nextSourceId: u64, nextParentId: u64, plan: RenamePlan, fs: FileSystem,
                        unordered: seq<FrozenEntry>, key: ComparisonKey)
    requires FrozenPlans.Pending(run, c, plan, fs, unordered) && Coherent(c, nextSourceId, nextParentId) && ComparedApart(key, plan.rows)
    ensures var originals := JournalEntries(run.plan.entries);
            && Addressed(originals) && KeysApart(key, originals) && (forall e :: e in originals ==> e.undoOfPlanId.None?)
            && HeaderOf(run, originals)
  {
    var entries, originals := run.plan.entries, JournalEntries(run.plan.entries);
    forall i | 0 <= i < |entries|
      ensures originals[i].nativeParent == Some(entries[i].parent) && originals[i].parentExecutionIdentity.Some?
      ensures originals[i].undoOfPlanId.None?
    {
      var p := RowOf(run, c, plan, fs, unordered, i);
    }
    forall i, j | 0 <= i < j < |entries| ensures FinalKey(key, originals[i]) != FinalKey(key, originals[j]) {
      var p := RowOf(run, c, plan, fs, unordered, i);
      var q := RowOf(run, c, plan, fs, unordered, j);
      var a, b := ChangedRows(plan.rows)[p], ChangedRows(plan.rows)[q];
      assert SourceIds(entries)[i] < SourceIds(entries)[j];
      ChangedRowsAreRows(plan.rows, a);
      ChangedRowsAreRows(plan.rows, b);
      KeysOfRowsDiffer(c, nextSourceId, nextParentId, plan.rows, a, b, key);
    }
  }

  lemma KeysOfRowsDiffer(c: Contents, nextSourceId: u64, nextParentId: u64, rows: seq<PlanRow>, a: PlanRow, b: PlanRow, key: ComparisonKey)
    requires Coherent(c, nextSourceId, nextParentId) && ComparedApart(key, rows)
    requires a in rows && b in rows && a.sourceId != b.sourceId && Known(c, a) && Known(c, b)
    ensures c.paths[a.sourceId].parent == c.paths[b.sourceId].parent ==> key(a.proposedName) != key(b.proposedName)
  {
    assert UnsealedAt(CoherentSeal, c, 0) && UnsealedAt(LinkedSeal, c, 0);
    assert Describes(c, a.sourceId) && Describes(c, b.sourceId);
    var i :| 0 <= i < |rows| && rows[i] == a;
    var j :| 0 <= j < |rows| && rows[j] == b;
    if a.parentId == b.parentId {
      assert if i < j then key(rows[i].proposedName) != key(rows[j].proposedName) else key(rows[j].proposedName) != key(rows[i].proposedName);
    }
  }

  /** From the preview to the undo: straight after it has finished, an applied plan passes for an undo, and it
      is ready if and only if no temporary name has become a final one. */
  lemma FinishedPlansCanBeUndone(run: Run, c: Contents, nextSourceId: u64, nextParentId: u64, plan: RenamePlan, fs: FileSystem,
                                 frozen: FrozenExecutionPlan, unordered: seq<FrozenEntry>,
                                 records: seq<JournalRecord>, after: FileSystem, key: ComparisonKey)
    requires Frozen(c, plan, fs, frozen, unordered) && plan.CanApply()
    requires Coherent(c, nextSourceId, nextParentId) && NamesApart(plan.rows) && ComparedApart(key, plan.rows)
    requires Injective(fs.tree) && fs.Honest() && after.Untroubled()
    requires run.plan == frozen.View() && run.initial == fs.tree && run.parents == fs.parents == after.parents
    requires Replayed(records) == Success(Completed) && records != [] && records[0] == frozen.InitialRecord()
    requires run.Possible(run.Steps()) && after.tree == run.TreeAfter(run.Steps())
    ensures Admissible(key, records)
    ensures AllUndoable(after, key, records[0].entries) <==> TemporariesClear(frozen.entries)
  {
    FrozenIsPlotted(run, c, nextSourceId, nextParentId, plan, fs, frozen, unordered);
    FrozenKeysApart(run, c, nextSourceId, nextParentId, plan, fs, unordered, key);
    UndoIsOffered(run, records, after, key, JournalEntries(frozen.entries));
  }

  // ---------------------------------------------------------------- recovery after a crash

  /** The changed rows change something. */
  ghost predicate Renames(rows: seq<PlanRow>) {
    forall row :: row in rows && row.status.Changed? ==> row.proposedName != row.originalName
  }

  /** A run whose plan says where its directories are can be recovered. */
  lemma PlottedIsRecoverable(run: Run)
    requires Plotted(run) && run.plan.entries != [] && Injective(run.initial)
    requires run.header.TransactionStarted? && run.header.entries == JournalEntries(run.plan.entries)
    requires forall i :: 0 <= i < |run.plan.entries| ==> IsLocated(run.plan.entries[i])
    ensures Recoverable(run)
  {
    assert Unsealed(PlottedSeal, 0);
    forall e | e in run.plan.entries ensures OriginalAt(e) != FinalAt(e) {
      var i :| 0 <= i < |run.plan.entries| && run.plan.entries[i] == e;
      assert IsLocated(run.plan.entries[i]);
    }
  }

  /** The entry says where its directory is, and its source gets another name. */
  ghost predicate IsLocated(e: FrozenEntry) {
    && e.journalEntry.nativeParent == Some(e.parent) && e.journalEntry.parentExecutionIdentity.Some?
    && e.journalEntry.names.originalName != e.journalEntry.names.finalName
  }

  /** Every frozen plan meets what recovery relies on. */
  lemma FrozenIsRecoverable(run: Run, c: Contents, nextSourceId: u64, nextParentId: u64, plan: RenamePlan, fs: FileSystem,
                            frozen: FrozenExecutionPlan, unordered: seq<FrozenEntry>)
    requires Frozen(c, plan, fs, frozen, unordered) && plan.CanApply() && plan.changedCount == CountStatus(plan.rows, Changed)
    requires Coherent(c, nextSourceId, nextParentId) && NamesApart(plan.rows) && Injective(fs.tree) && fs.Honest()
    requires run.plan == frozen.View() && run.initial == fs.tree && run.parents == fs.parents
    requires run.plan.Indexed() && run.header == frozen.InitialRecord()
    requires Renames(plan.rows)
    ensures Recoverable(run)
  {
    ApplicablePlansChangeSomething(plan);
    FrozenIsComplete(c, plan, fs, frozen, unordered);
    FrozenIsPlotted(run, c, nextSourceId, nextParentId, plan, fs, frozen, unordered);
    forall i | 0 <= i < |run.plan.entries| ensures IsLocated(run.plan.entries[i]) {
      var p := RowOf(run, c, plan, fs, unordered, i);
      ChangedRowsAreRows(plan.rows, ChangedRows(plan.rows)[p]);
    }
    PlottedIsRecoverable(run);
  }

  ghost predicate AllRenamed(originals: seq<JournalEntry>) {
    forall original :: original in originals ==> original.names.originalName != original.names.finalName
  }

  /** So can an undo. */
  lemma UndoIsRecoverable(run: Run, fs: FileSystem, key: ComparisonKey, planId: u64, originalPlanId: u64,
                          originals: seq<JournalEntry>, unordered: seq<FrozenEntry>)
    requires Prepared(run, fs, key, planId, originalPlanId, originals, unordered) && Plotted(run) && originals != []
    requires run.header.TransactionStarted? && run.header.entries == JournalEntries(run.plan.entries)
    requires Injective(fs.tree)
    requires AllRenamed(originals)
    ensures Recoverable(run)
  {
    SameEntriesSameIds(run.plan.entries, unordered);
    forall i | 0 <= i < |run.plan.entries| ensures IsLocated(run.plan.entries[i]) {
      var p := Partner(run, fs, key, planId, originalPlanId, originals, unordered, i);
      assert originals[p] in originals;
    }
    PlottedIsRecoverable(run);
  }
}
