/** Recovery after a crash: a journal is opened again, a prepared step is reconciled with the disk, and
    the transaction is finished or taken back. */
module Recovery {
  import opened Primitives
  import opened Execution
  import opened Replay
  import opened RecordCodec
  import opened Frames
  import opened Journal
  import opened Machine
  import opened Appender
  import opened Transaction
  import opened Plans
  import opened Lookup
  import opened Course
  import opened Executor
  import opened Crash
  import opened Cycles
  import opened RecoveryState

  datatype RecoveryAction = Resume | RollBack

  datatype RecoveryActionErrorKind =
    | JournalRefused(storage: JournalStorageErrorKind)
    | InspectionFailed(inspection: RecoveryErrorKind)
    | DispositionNotDeterministic
    | RequiresReconciliation
    | ActionUnavailable
    | IdentityStateChanged
    | ProtocolViolated

  type Acting<+T> = Result<T, RecoveryActionErrorKind>

  /** What recovery relies on: a plan that could be executed, its header, and one name for each entry. */
  ghost predicate Recoverable(run: Run) {
    && Plotted(run) && Headed(run) && AllMoved(run.plan.entries) && run.plan.entries != []
    && Injective(run.initial)
  }

  /** The records and the disk of such a run, with `a` steps taken. */
  ghost predicate Surviving(run: Run, records: seq<JournalRecord>, fs: FileSystem, a: nat) {
    && Recoverable(run) && run.Authored(records) && records != []
    && Explained(run.Steps(), records, a) && a <= run.Steps()
    && Laid(run, fs.tree, a) && Injective(fs.tree) && fs.parents == run.parents && fs.Honest()
  }

  lemma SurvivesWhereConsistent(run: Run, journal: DurableAppender, fs: FileSystem, a: nat)
    requires Recoverable(run) && Consistent(run, journal, a)
    requires fs.tree == journal.sink.tree && fs.parents == journal.sink.parents && fs.Honest()
    ensures Surviving(run, journal.Accepted(), fs, a)
  {
    AcceptedIsExplained(run, journal, a);
    assert Unsealed(SoundSeal, 0);
    ReachedIsLaid(run, a);
    RunsConserve(run, a);
  }

  // ---------------------------------------------------------------- a prepared step

  datatype PreparedStep = PreparedStep(direction: ExecutionDirection, stepIndex: nat, entry: JournalEntry, disposition: Disposition)

  function JournalIds(entries: seq<JournalEntry>): (r: seq<u64>)
    ensures |r| == |entries| && forall i :: 0 <= i < |r| ==> r[i] == entries[i].sourceId
  {
    seq(|entries|, i requires 0 <= i < |entries| => entries[i].sourceId)
  }

  function FindJournalEntry(entries: seq<JournalEntry>, sourceId: u64): (r: Option<JournalEntry>)
    ensures r.Some? ==> r.value in entries && r.value.sourceId == sourceId
  {
    if entries == [] then None
    else if entries[0].sourceId == sourceId then Some(entries[0])
    else FindJournalEntry(entries[1..], sourceId)
  }

  lemma {:induction false} JournalEntryIsUnique(entries: seq<JournalEntry>, i: nat)
    requires StrictlyAscending(JournalIds(entries)) && i < |entries|
    ensures FindJournalEntry(entries, entries[i].sourceId) == Some(entries[i])
  {
    var ids := JournalIds(entries);
    if i > 0 {
      assert ids[0] < ids[i];
      assert JournalIds(entries[1..]) == ids[1..];
      JournalEntryIsUnique(entries[1..], i - 1);
    }
  }

  /** How far a forward step in a window may lag behind the disk and still be told: a source that has gone
      on to its final name no longer shows that it took the first of its two steps. */
  ghost predicate Overshot(run: Run, mode: ReplayMode, a: nat) {
    && mode.Forward? && mode.nextStep < |run.plan.entries| && a > |run.plan.entries| + mode.nextStep
    && !KeepsTemporary(run.plan.entries[mode.nextStep])
  }

  /** So it looks on the disk: the first prepared step belongs to the first pass, and its source has already
      arrived under its final name. */
  ghost predicate GoneAhead(run: Run, records: seq<JournalRecord>, tree: Tree) {
    ReplayAll(records).Success? &&
    match ReplayAll(records).value
    case Forward(next, _, prepared) =>
      && prepared != [] && next < |run.plan.entries|
      && HasArrived(tree, run.plan.entries[next]) && !KeepsTemporary(run.plan.entries[next])
    case _ => false
  }

  ghost predicate HasArrived(tree: Tree, e: FrozenEntry) {
    FinalAt(e) in tree && tree[FinalAt(e)] == Node(e.journalEntry.executionIdentity, true)
  }

  /** Nor can a step be told of a source that stands under a name which is its temporary and its final one. */
  ghost predicate SeenTwice(run: Run, tree: Tree) {
    exists i :: 0 <= i < |run.plan.entries| && IsSeenTwice(tree, run.plan.entries[i])
  }

  ghost predicate IsSeenTwice(tree: Tree, e: FrozenEntry) {
    KeepsTemporary(e) && HasArrived(tree, e)
  }

  /** The source of step `c` does, after `a` steps. */
  ghost predicate Doubled(run: Run, c: nat, a: nat) {
    && c < run.Steps() == 2 * |run.plan.entries|
    && KeepsTemporary(run.plan.entries[Mover(|run.plan.entries|, c)]) && a > Mover(|run.plan.entries|, c)
  }

  lemma DoublingShows(run: Run, tree: Tree, a: nat, i: nat)
    requires Recoverable(run) && Laid(run, tree, a) && Injective(tree) && i < |run.plan.entries|
    ensures IsSeenTwice(tree, run.plan.entries[i]) <==> KeepsTemporary(run.plan.entries[i]) && a > i
  {
    var entries := run.plan.entries;
    assert entries[i] in entries;
    assert Spot(entries, i, a) in tree && tree[Spot(entries, i, a)] == Node(entries[i].journalEntry.executionIdentity, true) by {
      assert UnsealedAt(LaidSeal, tree, 0);
    }
    assert HasArrived(tree, entries[i]) <==> Spot(entries, i, a) == FinalAt(entries[i]);
  }

  /** The first prepared step is such a step. */
  ghost predicate PreparedIsSeenTwice(run: Run, records: seq<JournalRecord>, tree: Tree) {
    Replayed(records).Success? && Replayed(records).value.ReconciliationRequired? &&
    var c := Replayed(records).value.stepIndex;
    c < run.Steps() == 2 * |run.plan.entries| && IsSeenTwice(tree, run.plan.entries[Mover(|run.plan.entries|, c)])
  }

  lemma OvershootingShows(run: Run, records: seq<JournalRecord>, fs: FileSystem, a: nat)
    requires Surviving(run, records, fs, a)
    ensures ReplayAll(records).Success? && (GoneAhead(run, records, fs.tree) <==> Overshot(run, ReplayAll(records).value, a))
  {
    assert Unsealed(ExplainedSeal, 0);
    var entries, mode := run.plan.entries, ReplayAll(records).value;
    if mode.Forward? && mode.nextStep < |entries| {
      var i := mode.nextStep;
      assert Spot(entries, i, a) in fs.tree && fs.tree[Spot(entries, i, a)] == Node(entries[i].journalEntry.executionIdentity, true) by {
        assert UnsealedAt(LaidSeal, fs.tree, 0);
      }
      assert entries[i] in entries;
      assert HasArrived(fs.tree, entries[i]) <==> Spot(entries, i, a) == FinalAt(entries[i]);
    }
  }

  /** What inspecting a prepared step must find. */
  ghost predicate ToldExactly(run: Run, mode: ReplayMode, step: PreparedStep, a: nat) {
    && step.stepIndex < run.Steps() == 2 * |run.plan.entries|
    && step.entry == run.plan.entries[Mover(|run.plan.entries|, step.stepIndex)].journalEntry
    && var doubled := Doubled(run, step.stepIndex, a);
    && (step.disposition == MultipleLocations <==> doubled)
    && match mode
       case Forward(next, _, prepared) =>
         && step.direction == Forwards && step.stepIndex == next
         && (step.disposition == NotApplied <==> a == next && !doubled)
         && (step.disposition == Applied <==> a > next && !doubled && !Overshot(run, mode, a))
         && (step.disposition == UnexpectedLocation <==> !doubled && Overshot(run, mode, a))
       case Rollback(_, remaining, prepared) =>
         && step.direction == Backwards && step.stepIndex == |remaining| - 1
         && (step.disposition == NotApplied <==> a == |remaining| && !doubled)
         && (step.disposition == Applied <==> a == |remaining| - 1 && !doubled)
       case _ => false
  }

  /** The schedule and the entry of step `c`, as read from the header, are those of the run. */
  lemma HeaderGivesTheStep(run: Run, header: JournalRecord, schedule: seq<ExecutionStep>, c: nat)
    requires Headed(run) && header == run.header && c < run.Steps() && IsScheduleOf(schedule, JournalIds(header.entries))
    ensures schedule == run.plan.schedule && run.Steps() == 2 * |run.plan.entries|
    ensures var n := |run.plan.entries|; var m := Mover(n, c); var e := run.plan.entries[m];
            && schedule[c].phase == (if c < n then SourceToTemporary else TemporaryToFinal)
            && FindJournalEntry(header.entries, schedule[c].sourceId) == Some(e.journalEntry)
            && e.journalEntry.nativeParent == Some(e.parent)
  {
    ScheduleIsTheRuns(run, header.entries, schedule);
    var n := |run.plan.entries|;
    var m := Mover(n, c);
    assert schedule[c] == ExecutionStep(c, SourceIds(run.plan.entries)[m], if c < n then SourceToTemporary else TemporaryToFinal);
    JournalEntryIsUnique(header.entries, m);
  }

  lemma ScheduleIsTheRuns(run: Run, entries: seq<JournalEntry>, schedule: seq<ExecutionStep>)
    requires Headed(run) && entries == run.header.entries && IsScheduleOf(schedule, JournalIds(entries))
    ensures schedule == run.plan.schedule && JournalIds(entries) == SourceIds(run.plan.entries)
  {
    var ids := SourceIds(run.plan.entries);
    assert JournalIds(entries) == ids;
    assert IsScheduleOf(run.plan.schedule, ids);
    ScheduleIsCanonical(ids, ids, schedule, run.plan.schedule);
  }

  ghost function FoundAfter(run: Run, i: nat, a: nat): seq<RecoveryLocation>
    requires i < |run.plan.entries|
  {
    if KeepsTemporary(run.plan.entries[i]) && a > i then [AtTemporary, AtFinal] else [PlaceAfter(|run.plan.entries|, i, a)]
  }

  /** And its source is found where the steps have left it. */
  lemma StepIsTheRuns(run: Run, records: seq<JournalRecord>, fs: FileSystem, a: nat, schedule: seq<ExecutionStep>, c: nat)
    requires Surviving(run, records, fs, a) && c < run.Steps()
    requires records[0].TransactionStarted? && IsScheduleOf(schedule, JournalIds(records[0].entries))
    ensures schedule == run.plan.schedule && run.Steps() == 2 * |run.plan.entries|
    ensures var n := |run.plan.entries|; var m := Mover(n, c); var e := run.plan.entries[m];
            && schedule[c].phase == (if c < n then SourceToTemporary else TemporaryToFinal)
            && FindJournalEntry(records[0].entries, schedule[c].sourceId) == Some(e.journalEntry)
            && e.journalEntry.nativeParent == Some(e.parent)
            && (OwnedLocations(fs, e).Success? ==> OwnedLocations(fs, e).value == FoundAfter(run, m, a))
            && (fs.Untroubled() ==> OwnedLocations(fs, e).Success?)
  {
    HeaderGivesTheStep(run, records[0], schedule, c);
    var m := Mover(|run.plan.entries|, c);
    if OwnedLocations(fs, run.plan.entries[m]).Success? {
      SourceIsFound(run, fs, a, m);
      FoundOnceOrTwice(run, m, a);
    }
    if fs.Untroubled() {
      LookingSucceeds(run, fs, m);
    }
  }

  /** What each refusal to look for a prepared step means. */
  ghost predicate PreparedRefused(records: seq<JournalRecord>, fs: FileSystem, error: RecoveryErrorKind) {
    match error
    case InvalidProtocol => Replayed(records).Failure?
    case StateNotReconcilable => Replayed(records).Success? && !Replayed(records).value.ReconciliationRequired?
    case ScheduleFailed(why) => HasHeader(records) && CannotSchedule(JournalIds(records[0].entries), why)
    case MissingNativeParent => HasHeader(records) && exists e :: e in records[0].entries && e.nativeParent.None?
    case _ => HasHeader(records) && exists e :: e in records[0].entries && e.nativeParent.Some?
                                                && LookingFailed(fs, FrozenEntry(e, e.nativeParent.value), error)
  }

  ghost predicate HasHeader(records: seq<JournalRecord>) {
    records != [] && records[0].TransactionStarted?
  }

  /** Looks for the source of the prepared step under its three names. */
  method InspectPreparedRecords(records: seq<JournalRecord>, fs: FileSystem, ghost run: Run, ghost a: nat)
    returns (r: Recovering<PreparedStep>)
    ensures r.Success? ==> Replayed(records) == Success(ReconciliationRequired(r.value.direction, r.value.stepIndex))
    ensures Surviving(run, records, fs, a) && r.Success? ==> ToldExactly(run, ReplayAll(records).value, r.value, a)
    ensures Surviving(run, records, fs, a) && fs.Untroubled() && Replayed(records).Success? && Replayed(records).value.ReconciliationRequired? ==> r.Success?
    ensures r.Failure? ==> PreparedRefused(records, fs, r.error)
  {
    var status := ReplayJournal(records);
    if status.Failure? {
      return Failure(RecoveryErrorKind.InvalidProtocol);
    }
    if !status.value.ReconciliationRequired? {
      return Failure(StateNotReconcilable);
    }
    ReplayInvariant(records);
    var direction, index := status.value.direction, status.value.stepIndex;
    var entries := records[0].entries;
    var schedule := BuildTwoPhaseSchedule(JournalIds(entries));
    if Surviving(run, records, fs, a) {
      PreparedStepsExist(run, records, a);
      HeaderIsReadable(run);
      assert JournalIds(entries) == SourceIds(Homes(entries));
    }
    if schedule.Failure? {
      return Failure(RecoveryErrorKind.ScheduleFailed(schedule.error));
    }
    if Surviving(run, records, fs, a) {
      StepIsTheRuns(run, records, fs, a, schedule.value, index);
    }
    StepIsThere(records, entries, schedule.value, index);
    if index >= |schedule.value| {
      return Failure(RecoveryErrorKind.InvalidProtocol);
    }
    var step := schedule.value[index];
    var entry := FindJournalEntry(entries, step.sourceId);
    if entry.None? {
      return Failure(MissingEntry);
    }
    if entry.value.nativeParent.None? {
      return Failure(RecoveryErrorKind.MissingNativeParent);
    }
    var owned := OwnedLocations(fs, FrozenEntry(entry.value, entry.value.nativeParent.value));
    if owned.Failure? {
      LookingFails(fs, FrozenEntry(entry.value, entry.value.nativeParent.value));
      return Failure(owned.error);
    }
    var (source, target) := StepLocations(direction, step.phase);
    var prepared := PreparedStep(direction, index, entry.value, DispositionOf(owned.value, source, target));
    if Surviving(run, records, fs, a) {
      DispositionTells(run, records, a, prepared, source, target);
    }
    return Success(prepared);
  }

  /** The schedule over the entries of a header has its steps, and every step has its entry. */
  lemma StepIsThere(records: seq<JournalRecord>, entries: seq<JournalEntry>, schedule: seq<ExecutionStep>, index: nat)
    requires Replayed(records).Success? && Replayed(records).value.ReconciliationRequired? && records != []
    requires index == Replayed(records).value.stepIndex && records[0].TransactionStarted? && entries == records[0].entries
    requires IsScheduleOf(schedule, JournalIds(entries))
    ensures index < |schedule| && FindJournalEntry(entries, schedule[index].sourceId).Some?
  {
    ReplayInvariant(records);
    var ids := JournalIds(entries);
    var ordered: seq<u64> :| StrictlyAscending(ordered) && multiset(ordered) == multiset(ids) && IsTwoPhase(schedule, ordered);
    assert |ordered| == |multiset(ordered)| == |multiset(ids)| == |ids|;
    assert schedule[index].sourceId in multiset(ordered);
    var i :| 0 <= i < |ids| && ids[i] == schedule[index].sourceId;
    EntryIsFound(entries, i);
  }

  lemma {:induction false} EntryIsFound(entries: seq<JournalEntry>, i: nat)
    requires i < |entries|
    ensures FindJournalEntry(entries, entries[i].sourceId).Some?
    decreases |entries|
  {
    if entries[0].sourceId != entries[i].sourceId {
      EntryIsFound(entries[1..], i - 1);
    }
  }

  lemma PreparedStepsExist(run: Run, records: seq<JournalRecord>, a: nat)
    requires Explained(run.Steps(), records, a) && Replayed(records).Success? && Replayed(records).value.ReconciliationRequired?
    ensures Replayed(records).value.stepIndex < run.Steps()
    ensures var mode := ReplayAll(records).value;
            match mode
            case Forward(next, _, prepared) =>
              Replayed(records).value == ReconciliationRequired(Forwards, next) && prepared == Range(next, next + |prepared|) && next <= a
            case Rollback(_, remaining, prepared) =>
              Replayed(records).value == ReconciliationRequired(Backwards, |remaining| - 1) && prepared == Some(|remaining| - 1)
              && (a == |remaining| || a == |remaining| - 1)
            case _ => false
  {
    assert Unsealed(ExplainedSeal, 0);
    ReplayInvariant(records);
  }

  lemma DispositionTells(run: Run, records: seq<JournalRecord>, a: nat, step: PreparedStep, source: RecoveryLocation, target: RecoveryLocation)
    requires run.Steps() == 2 * |run.plan.entries| && Explained(run.Steps(), records, a) && a <= run.Steps()
    requires Replayed(records) == Success(ReconciliationRequired(step.direction, step.stepIndex)) && step.stepIndex < run.Steps()
    requires var n := |run.plan.entries|; var m := Mover(n, step.stepIndex);
             && (source, target) == StepLocations(step.direction, if step.stepIndex < n then SourceToTemporary else TemporaryToFinal)
             && step.disposition == DispositionOf(FoundAfter(run, m, a), source, target)
             && step.entry == run.plan.entries[m].journalEntry
    ensures ToldExactly(run, ReplayAll(records).value, step, a)
  {
    PreparedStepsExist(run, records, a);
    var n := |run.plan.entries|;
    match ReplayAll(records).value
    case Forward(next, _, _) => ForwardDisposition(n, next, a);
    case Rollback(_, remaining, _) => BackwardDisposition(n, |remaining|, a);
    case _ =>
  }

  /** The record that settles a prepared step. */
  function Settlement(step: PreparedStep): Option<JournalRecord>
    requires step.stepIndex <= USIZE_MAX
  {
    match (step.direction, step.disposition)
    case (Forwards, NotApplied) => Some(ForwardStepNotApplied(step.stepIndex))
    case (Forwards, Applied) => Some(ForwardStepCompleted(step.stepIndex, step.entry.executionIdentity))
    case (Backwards, NotApplied) => Some(RollbackStepNotApplied(step.stepIndex))
    case (Backwards, Applied) => Some(RollbackStepCompleted(step.stepIndex, step.entry.executionIdentity))
    case _ => None
  }

  /** How many prepared steps are left to reconcile. */
  function Unsettled(mode: ReplayMode): nat {
    match mode
    case Forward(_, _, prepared) => |prepared|
    case Rollback(_, _, prepared) => if prepared.Some? then 1 else 0
    case _ => 0
  }

  /** The record that settles the first prepared step when `a` steps have been taken. */
  ghost predicate Settles(run: Run, mode: ReplayMode, a: nat, record: JournalRecord)
    requires run.Steps() == 2 * |run.plan.entries|
  {
    match mode
    case Forward(next, _, _) =>
      && next < run.Steps()
      && if a == next then record.ForwardStepNotApplied? && record.stepIndex == next
         else record.ForwardStepCompleted? && record.stepIndex == next && record.observedIdentity == MovedIn(run, next)
    case Rollback(_, remaining, _) =>
      && 0 < |remaining| <= run.Steps()
      && if a == |remaining| then record.RollbackStepNotApplied? && record.stepIndex == |remaining| - 1
         else record.RollbackStepCompleted? && record.stepIndex == |remaining| - 1
              && record.observedIdentity == MovedIn(run, |remaining| - 1)
    case _ => false
  }

  ghost function MovedIn(run: Run, k: nat): ExecutionIdentity
    requires k < run.Steps() == 2 * |run.plan.entries|
  {
    run.plan.entries[Mover(|run.plan.entries|, k)].journalEntry.executionIdentity
  }

  /** Nothing is turned round: going forward stays going forward, and a rollback keeps its cause. */
  ghost predicate SameCourse(was: ReplayMode, now: ReplayMode) {
    match was
    case Forward(next, _, _) => now.Forward? && next <= now.nextStep
    case Rollback(cause, _, _) => now.Rollback? && now.cause == cause
    case _ => now == was
  }

  /** One record more, and one prepared step less at least. */
  ghost predicate IsSettled(run: Run, records: seq<JournalRecord>, longer: seq<JournalRecord>, a: nat)
    requires run.Steps() == 2 * |run.plan.entries|
  {
    && |longer| == |records| + 1 && longer[..|records|] == records
    && ReplayAll(records).Success? && ReplayAll(longer).Success?
    && Settles(run, ReplayAll(records).value, a, longer[|records|])
    && SameCourse(ReplayAll(records).value, ReplayAll(longer).value)
    && Unsettled(ReplayAll(longer).value) < Unsettled(ReplayAll(records).value)
  }

  /** Settling a step the way the disk tells keeps the journal an explanation of the disk. */
  lemma SettlementExplains(run: Run, records: seq<JournalRecord>, a: nat, step: PreparedStep)
    requires Explained(run.Steps(), records, a) && step.stepIndex <= USIZE_MAX
    requires Replayed(records) == Success(ReconciliationRequired(step.direction, step.stepIndex))
    requires ToldExactly(run, ReplayAll(records).value, step, a) && Settlement(step).Some?
    ensures Explained(run.Steps(), records + [Settlement(step).value], a)
    ensures IsSettled(run, records, records + [Settlement(step).value], a)
  {
    PreparedStepsExist(run, records, a);
    assert Unsealed(ExplainedSeal, 0);
    ReplayAppend(records, Settlement(step).value);
  }

  /** Journals what the disk tells about the first prepared step. */
  method SettleStep(journal: DurableAppender, records: seq<JournalRecord>, step: PreparedStep, ghost run: Run, ghost a: nat)
    returns (r: Acting<JournalStatus>)
    requires Consistent(run, journal, a) && records == journal.Accepted() && run.Steps() == 2 * |run.plan.entries| <= USIZE_MAX
    requires Replayed(records) == Success(ReconciliationRequired(step.direction, step.stepIndex))
    requires ToldExactly(run, ReplayAll(records).value, step, a)
    modifies journal, journal.sink
    ensures Consistent(run, journal, a) && journal.sink.tree == old(journal.sink.tree)
    ensures r.Success? ==> Replayed(journal.Accepted()) == Success(r.value) && !journal.poisoned
    ensures r.Success? ==> IsSettled(run, records, journal.Accepted(), a)
    ensures r.Failure? ==> journal.Accepted() == records
    ensures journal.sink.renames == old(journal.sink.renames)
    ensures r == Failure(DispositionNotDeterministic) <==>
              Overshot(run, ReplayAll(records).value, a) || Doubled(run, step.stepIndex, a)
    ensures journal.sink.Writable() && old(Roomy(journal, 1)) ==> r.Success? || r == Failure(DispositionNotDeterministic)
    ensures r.Failure? ==> r.error.DispositionNotDeterministic? || r.error.JournalRefused?
    ensures r.Failure? && r.error.JournalRefused? && old(journal.Live()) ==>
              Settlement(step).Some?
              && IsEntered(journal.Ahead(), old(journal.Behind()), journal.Behind(), Settlement(step).value, true, Failure(r.error.storage))
  {
    AcceptedIsExplained(run, journal, a);
    StateIsReached(run, journal, a);
    PreparedStepsExist(run, records, a);
    var record := Settlement(step);
    if record.None? {
      return Failure(DispositionNotDeterministic);
    }
    SettlementExplains(run, records, a, step);
    var appended := Announce(journal, record.value, run, a);
    StateIsReached(run, journal, a);
    if appended.Failure? {
      return Failure(JournalRefused(appended.error));
    }
    var status := ReplayJournal(records + [record.value]);
    if status.Failure? {
      return Failure(ProtocolViolated);
    }
    return Success(status.value);
  }

  /** What each refusal to settle a step means. */
  ghost predicate SettlingRefused(records: seq<JournalRecord>, fs: FileSystem, error: RecoveryActionErrorKind) {
    match error
    case InspectionFailed(inspection) => PreparedRefused(records, fs, inspection)
    case DispositionNotDeterministic => Replayed(records).Success? && Replayed(records).value.ReconciliationRequired?
    case JournalRefused(_) => Replayed(records).Success? && Replayed(records).value.ReconciliationRequired?
    case _ => false
  }

  /** The disk does not tell about the first prepared step. */
  ghost predicate Untellable(run: Run, records: seq<JournalRecord>, tree: Tree) {
    GoneAhead(run, records, tree) || PreparedIsSeenTwice(run, records, tree)
  }

  /** Settles the first prepared step. On a readable disk it is refused exactly if the source has already
      taken both of its steps, or is seen twice. */
  method ReconcilePreparedStep(journal: DurableAppender, records: seq<JournalRecord>, trouble: Location -> Option<ExecutionFsErrorKind>,
                               ghost run: Run, ghost a: nat)
    returns (r: Acting<JournalStatus>)
    requires Recoverable(run) && Consistent(run, journal, a) && records == journal.Accepted()
    requires FileSystem(journal.sink.tree, journal.sink.parents, trouble).Honest()
    modifies journal, journal.sink
    ensures Consistent(run, journal, a) && journal.sink.tree == old(journal.sink.tree)
    ensures r.Success? ==> Replayed(journal.Accepted()) == Success(r.value) && !journal.poisoned
    ensures r.Success? ==> IsSettled(run, records, journal.Accepted(), a) && !Untellable(run, records, journal.sink.tree)
    ensures r.Failure? ==> journal.Accepted() == records
    ensures journal.sink.renames == old(journal.sink.renames)
    ensures r == Failure(DispositionNotDeterministic) ==> Untellable(run, records, journal.sink.tree)
    ensures r == Failure(DispositionNotDeterministic) ==>
              |run.plan.entries| < FORWARD_JOURNAL_BATCH_STEPS || PreparedIsSeenTwice(run, records, journal.sink.tree)
    ensures (forall at :: trouble(at).None?) && journal.sink.Writable() && old(Roomy(journal, 1))
            && Replayed(records).Success? && Replayed(records).value.ReconciliationRequired?
            ==> if Untellable(run, records, journal.sink.tree) then r == Failure(DispositionNotDeterministic) else r.Success?
    ensures r.Failure? ==> SettlingRefused(records, FileSystem(journal.sink.tree, journal.sink.parents, trouble), r.error)
  {
    var fs := FileSystem(journal.sink.tree, journal.sink.parents, trouble);
    SurvivesWhereConsistent(run, journal, fs, a);
    OvershootingShows(run, records, fs, a);
    OnlySmallPlansOvershoot(run, records, a);
    var step := InspectPreparedRecords(records, fs, run, a);
    if step.Failure? {
      return Failure(InspectionFailed(step.error));
    }
    StepsAreCounted(run, journal, a);
    DoublingShows(run, fs.tree, a, Mover(|run.plan.entries|, step.value.stepIndex));
    r := SettleStep(journal, records, step.value, run, a);
  }

  lemma StateIsReached(run: Run, journal: DurableAppender, a: nat)
    requires Consistent(run, journal, a)
    ensures run.Reached(journal.sink.tree, a)
  {
    assert Unsealed(SoundSeal, 0);
  }

  lemma StepsAreCounted(run: Run, journal: DurableAppender, a: nat)
    requires Consistent(run, journal, a)
    ensures run.Steps() <= USIZE_MAX
  {
  }

  /** No window of prepared steps is wider than a batch. */
  lemma {:induction false} WindowsAreNarrow(records: seq<JournalRecord>)
    requires ReplayAll(records).Success? && forall i :: 0 <= i < |records| ==> BatchFits(records[i])
    ensures ReplayAll(records).value.Forward? ==> |ReplayAll(records).value.preparedSteps| <= FORWARD_JOURNAL_BATCH_STEPS
  {
    if |records| > 1 {
      var front := records[..|records| - 1];
      WindowsAreNarrow(front);
      assert BatchFits(records[|records| - 1]);
    }
  }

  /** With at least as many sources as a batch has steps, every prepared step can be settled. */
  lemma OnlySmallPlansOvershoot(run: Run, records: seq<JournalRecord>, a: nat)
    requires Explained(run.Steps(), records, a) && run.Authored(records)
    ensures ReplayAll(records).Success?
    ensures |run.plan.entries| >= FORWARD_JOURNAL_BATCH_STEPS ==> !Overshot(run, ReplayAll(records).value, a)
  {
    assert Unsealed(ExplainedSeal, 0);
    WindowsAreNarrow(records);
  }

  // ---------------------------------------------------------------- opening the journal again

  const MAX_JOURNAL_FILE_BYTES: nat := 64 * 1024 * 1024

  /** A journal that can be written on: its header carries the identities of the directories, it follows
      the protocol, and it is not finished. */
  ghost predicate Resumable(records: seq<JournalRecord>) {
    && records != [] && HasParentAuthority(records[0])
    && Replayed(records).Success? && !Replayed(records).value.Terminal()
  }

  /** What each refusal to open a journal means. */
  ghost predicate OpeningRefused(disk: Machine, error: JournalStorageErrorKind)
    reads disk
  {
    match error
    case ResumeTooLarge => |disk.file| > MAX_JOURNAL_FILE_BYTES
    case ResumeCodec(damage) => disk.torn != [] && TornKind(damage)
    case ResumeProtocol(problem) => disk.torn == [] && Replayed(disk.written).Failure? && problem == Replayed(disk.written).error.kind
    case ResumeVersion(version) => disk.torn == [] && disk.written != [] && !HasParentAuthority(disk.written[0])
                                   && version == JOURNAL_SCHEMA_VERSION
    case ResumeTerminal => disk.torn == [] && Replayed(disk.written).Success? && Replayed(disk.written).value.Terminal()
    case _ => false
  }

  /** Opens the journal that a restart has found. A torn tail is refused, so nothing is ever written behind
      bytes that cannot be read. */
  method OpenJournal(crc: Checksum, disk: Machine) returns (r: Result<DurableAppender, JournalStorageErrorKind>, records: seq<JournalRecord>)
    requires Faithful(Writer(crc, JOURNAL_SCHEMA_VERSION), disk.Now())
    ensures r.Success? <==> |disk.file| <= MAX_JOURNAL_FILE_BYTES && disk.torn == [] && Resumable(disk.written)
    ensures r.Success? ==>
              && fresh(r.value) && r.value.Valid() && r.value.sink == disk && r.value.write == Writer(crc, JOURNAL_SCHEMA_VERSION)
              && r.value.schemaVersion == JOURNAL_SCHEMA_VERSION && !r.value.poisoned && !r.value.terminal
              && records == disk.written == r.value.Accepted()
    ensures r.Failure? ==> OpeningRefused(disk, r.error)
  {
    records := [];
    if |disk.file| > MAX_JOURNAL_FILE_BYTES {
      return Failure(ResumeTooLarge), [];
    }
    var frames := DecodeJournal(crc, disk.file);
    FaithfulInspects(crc, JOURNAL_SCHEMA_VERSION, disk.Now());
    FramesTakeRoom(crc, Writer(crc, JOURNAL_SCHEMA_VERSION), disk.Now());
    if frames.Failure? {
      return Failure(ResumeCodec(frames.error.kind)), [];
    }
    if frames.value == [] {
      return Failure(ResumeProtocol(EmptyJournal)), [];
    }
    var version := frames.value[0].schemaVersion;
    records := RecordsOf(frames.value);
    if version != JOURNAL_SCHEMA_VERSION || !HasParentAuthority(records[0]) {
      return Failure(ResumeVersion(version)), [];
    }
    var status := ReplayJournal(records);
    if status.Failure? {
      return Failure(ResumeProtocol(status.error.kind)), [];
    }
    if status.value.Terminal() {
      return Failure(JournalStorageErrorKind.ResumeTerminal), [];
    }
    NotTerminalYet(records);
    var journal := new DurableAppender.Resume(Writer(crc, JOURNAL_SCHEMA_VERSION), disk, |records|, version);
    return Success(journal), records;
  }

  /** A file holds no more records than bytes. */
  lemma FramesTakeRoom(crc: Checksum, write: FrameWriter, m: Moment)
    requires Faithful(write, m) && write == Writer(crc, JOURNAL_SCHEMA_VERSION)
    ensures |m.written| <= |m.file|
  {
    assert HoldsItsRecords(write, m) by { assert Unsealed(FaithfulSeal, 0); }
    ResumableRecords(m.written, JOURNAL_SCHEMA_VERSION);
    EncodingsRead(crc, m.written, JOURNAL_SCHEMA_VERSION);
    ChunksTakeRoom(Encodings(write, m.written));
  }

  lemma {:induction false} ChunksTakeRoom(chunks: seq<seq<u8>>)
    requires [] !in chunks
    ensures |chunks| <= |Concat(chunks)|
  {
    if chunks != [] {
      ChunksTakeRoom(chunks[..|chunks| - 1]);
      assert chunks[|chunks| - 1] in chunks;
    }
  }

  lemma {:induction false} NotTerminalYet(records: seq<JournalRecord>)
    requires ReplayAll(records).Success? && !ReplayAll(records).value.Finished? && !ReplayAll(records).value.Reverted?
    ensures forall r :: r in records ==> !IsTerminal(r)
  {
    var front, last := records[..|records| - 1], records[|records| - 1];
    assert records == front + [last];
    if |records| > 1 {
      NotTerminalYet(front);
    }
  }

  // ---------------------------------------------------------------- checking the disk against the records

  /** Every source is in the one place where the records say it is. */
  ghost predicate DiskAgrees(plan: PlanView, records: seq<JournalRecord>, fs: FileSystem) {
    forall i :: 0 <= i < |plan.entries| ==>
      var id := plan.entries[i].journalEntry.sourceId;
      id in Expected(plan, records) && OwnedLocations(fs, plan.entries[i]) == Success([Expected(plan, records)[id]])
  }

  /** A source is not in the place where the records say it is, or not only there. */
  ghost predicate IsElsewhere(plan: PlanView, records: seq<JournalRecord>, fs: FileSystem, i: nat)
    requires i < |plan.entries|
  {
    var id, owned := plan.entries[i].journalEntry.sourceId, OwnedLocations(fs, plan.entries[i]);
    id in Expected(plan, records) && owned.Success? && owned.value != [Expected(plan, records)[id]]
  }

  method ExpectedLocations(plan: PlanView, records: seq<JournalRecord>) returns (r: Acting<map<u64, RecoveryLocation>>)
    ensures r.Success? ==> r.value == Expected(plan, records)
    ensures r.Failure? ==> r.error.ProtocolViolated? && exists k :: 0 <= k < |records| && IsBeyond(plan, records[k])
  {
    var expected := map id | id in SourceIds(plan.entries) :: AtOriginal;
    assert records[..0] == [];
    for k := 0 to |records|
      invariant expected == Expected(plan, records[..k])
    {
      assert records[..k + 1][..k] == records[..k];
      if (records[k].ForwardStepCompleted? || records[k].RollbackStepCompleted?) && records[k].stepIndex >= |plan.schedule| {
        assert IsBeyond(plan, records[k]);
        return Failure(ProtocolViolated);
      }
      expected := Told(plan, expected, records[k]);
    }
    assert records[..|records|] == records;
    return Success(expected);
  }

  ghost predicate IsBeyond(plan: PlanView, record: JournalRecord) {
    (record.ForwardStepCompleted? || record.RollbackStepCompleted?) && record.stepIndex >= |plan.schedule|
  }

  method ValidateRecordedState(records: seq<JournalRecord>, plan: PlanView, fs: FileSystem) returns (r: Acting<()>)
    ensures r.Success? ==> DiskAgrees(plan, records, fs)
    ensures r.Failure? && r.error.IdentityStateChanged? ==> exists i :: 0 <= i < |plan.entries| && IsElsewhere(plan, records, fs, i)
    ensures r.Failure? ==> || r.error.IdentityStateChanged?
                           || r.error.ProtocolViolated?
                           || (r.error.InspectionFailed? && exists e :: e in plan.entries && OwnedLocations(fs, e) == Failure(r.error.inspection))
    ensures r.Failure? && r.error.ProtocolViolated? ==>
              || (exists k :: 0 <= k < |records| && IsBeyond(plan, records[k]))
              || (exists i :: 0 <= i < |plan.entries| && plan.entries[i].journalEntry.sourceId !in Expected(plan, records))
  {
    var expected := ExpectedLocations(plan, records);
    if expected.Failure? {
      return Failure(expected.error);
    }
    for i := 0 to |plan.entries|
      invariant forall j :: 0 <= j < i ==>
                  var id := plan.entries[j].journalEntry.sourceId;
                  id in expected.value && OwnedLocations(fs, plan.entries[j]) == Success([expected.value[id]])
    {
      var e := plan.entries[i];
      var owned := OwnedLocations(fs, e);
      if owned.Failure? {
        return Failure(InspectionFailed(owned.error));
      }
      if e.journalEntry.sourceId !in expected.value {
        return Failure(ProtocolViolated);
      }
      if owned.value != [expected.value[e.journalEntry.sourceId]] {
        assert IsElsewhere(plan, records, fs, i);
        return Failure(IdentityStateChanged);
      }
    }
    return Success(());
  }

  /** While nothing is prepared, the disk of a run agrees with its records, unless a source is seen twice. */
  lemma SettledDiskAgrees(run: Run, records: seq<JournalRecord>, fs: FileSystem, a: nat)
    requires Surviving(run, records, fs, a) && fs.Untroubled()
    requires ReplayAll(records).Success? && Unsettled(ReplayAll(records).value) == 0
    ensures DiskAgrees(run.plan, records, fs) <==> !SeenTwice(run, fs.tree)
  {
    assert StepCount(records) == run.Steps() && a == Standing(ReplayAll(records).value, run.Steps()) by {
      assert Unsealed(ExplainedSeal, 0);
    }
    RecordsTellPlaces(run.plan, records);
    if SeenTwice(run, fs.tree) {
      SeenTwiceNeverAgrees(run, records, fs, a);
    } else {
      forall i | 0 <= i < |run.plan.entries|
        ensures OwnedLocations(fs, run.plan.entries[i]) == Success([PlaceAfter(|run.plan.entries|, i, a)])
      {
        LookingSucceeds(run, fs, i);
        SourceIsFound(run, fs, a, i);
        FoundOnceOrTwice(run, i, a);
        DoublingShows(run, fs.tree, a, i);
      }
    }
  }

  /** While nothing is prepared only a source that is seen twice is elsewhere. */
  lemma ElsewhereIsSeenTwice(run: Run, records: seq<JournalRecord>, fs: FileSystem, a: nat, i: nat)
    requires Surviving(run, records, fs, a) && i < |run.plan.entries| && IsElsewhere(run.plan, records, fs, i)
    requires ReplayAll(records).Success? && Unsettled(ReplayAll(records).value) == 0
    ensures SeenTwice(run, fs.tree)
  {
    assert StepCount(records) == run.Steps() && a == Standing(ReplayAll(records).value, run.Steps()) by {
      assert Unsealed(ExplainedSeal, 0);
    }
    RecordsTellPlaces(run.plan, records);
    SourceIsFound(run, fs, a, i);
    FoundOnceOrTwice(run, i, a);
    DoublingShows(run, fs.tree, a, i);
  }

  /** A source that is seen twice never agrees with any records, settled or not. */
  lemma SeenTwiceNeverAgrees(run: Run, records: seq<JournalRecord>, fs: FileSystem, a: nat)
    requires Recoverable(run) && SeenTwice(run, fs.tree)
    requires Laid(run, fs.tree, a) && Injective(fs.tree) && fs.parents == run.parents && fs.Honest()
    ensures !DiskAgrees(run.plan, records, fs)
  {
    var i :| 0 <= i < |run.plan.entries| && IsSeenTwice(fs.tree, run.plan.entries[i]);
    DoublingShows(run, fs.tree, a, i);
    if OwnedLocations(fs, run.plan.entries[i]).Success? {
      SourceIsFound(run, fs, a, i);
      FoundOnceOrTwice(run, i, a);
    }
  }

  lemma {:induction false} CompletionsAreInBounds(records: seq<JournalRecord>, plan: PlanView)
    requires ReplayAll(records).Success? && StepCount(records) == |plan.schedule|
    ensures forall k :: 0 <= k < |records| ==> !IsBeyond(plan, records[k])
  {
    ReplayInvariant(records);
    var front, last := records[..|records| - 1], records[|records| - 1];
    if |records| > 1 {
      CompletionsAreInBounds(front, plan);
      ReplayInvariant(front);
      assert !IsBeyond(plan, last);
      forall k | 0 <= k < |records| ensures !IsBeyond(plan, records[k]) {
        if k < |front| {
          assert front[k] == records[k];
        }
      }
    }
  }

  // ---------------------------------------------------------------- finishing or taking back

  /** What the status of a settled journal lets the executor go on with. */
  ghost predicate GoesOn(steps: nat, records: seq<JournalRecord>, status: JournalStatus, a: nat) {
    match status
    case ForwardPending(next) => next == a < steps && ForwardIn(records, a, a)
    case CompletionPending => a == steps && ForwardIn(records, a, a)
    case RollbackPending(cause, next) => a == next + 1 <= steps && RollbackIn(records, cause, a, false)
    case RollbackCompletionPending(cause) => a == 0 && RollbackIn(records, cause, 0, false)
    case RecoveryRequired(cause, failed) => a == failed + 1 <= steps && ReplayAll(records) == Success(Stuck(cause, failed, Countdown(a)))
    case _ => true
  }

  lemma SettledModes(steps: nat, records: seq<JournalRecord>, a: nat)
    requires Explained(steps, records, a) && Replayed(records).Success?
    ensures GoesOn(steps, records, Replayed(records).value, a)
  {
    assert Unsealed(ExplainedSeal, 0) && Unsealed(ForwardSeal, 0) && Unsealed(RollbackSeal, 0);
    ReplayInvariant(records);
  }

  lemma RecoveryRestarts(run: Run, records: seq<JournalRecord>, cause: RollbackCause, a: nat)
    requires Explained(run.Steps(), records, a) && 0 < a <= USIZE_MAX
    requires ReplayAll(records) == Success(Stuck(cause, a - 1, Countdown(a)))
    ensures var longer := records + [RollbackRecoveryStarted(a - 1)];
            Explained(run.Steps(), longer, a) && RollbackIn(longer, cause, a, false) && Pending(records)
  {
    assert Unsealed(ExplainedSeal, 0) && Unsealed(RollbackSeal, 0) && Unsealed(PendingSeal, 0);
    ReplayAppend(records, RollbackRecoveryStarted(a - 1));
  }

  /** Goes on with a failed rollback: the renewed attempt is announced first. */
  method RestartRollback(plan: PlanView, journal: DurableAppender, cause: RollbackCause, failedStep: nat, ghost run: Run,
                         ghost aim: ExecutionOutcome)
    returns (outcome: ExecutionOutcome)
    requires run.plan == plan && failedStep < run.Steps() && Consistent(run, journal, failedStep + 1)
    requires ReplayAll(journal.Accepted()) == Success(Stuck(cause, failedStep, Countdown(failedStep + 1)))
    requires journal.Live() ==> Restarts(run, journal.Ahead(), journal.Behind(), failedStep + 1, cause, aim)
    modifies journal, journal.sink
    ensures Concluded(run, journal, outcome) && outcome != ExecutionOutcome.Finished
    ensures plan.Complete() ==> !IsInvalidPlan(outcome)
    ensures Blames(journal.Accepted(), outcome, cause)
    ensures old(journal.Live()) ==> outcome == aim
  {
    ghost var a := failedStep + 1;
    AcceptedIsExplained(run, journal, a);
    RecoveryRestarts(run, journal.Accepted(), cause, a);
    ghost var live, fates, spent := journal.Live(), journal.Ahead(), journal.Behind();
    var r := Announce(journal, RollbackRecoveryStarted(failedStep), run, a);
    if live {
      RestartIsAnnounced(run, fates, spent, a, cause, journal.Behind(), r, aim);
    }
    if r.Failure? {
      outcome := JournalRecovery(Backwards, Some(failedStep), r.error);
      ReportsStuck(journal.Accepted(), cause, failedStep, outcome);
      RecoveryIsDue(run, journal, a, outcome);
      return;
    }
    outcome := ContinueRollback(plan, journal, failedStep, cause, run, aim);
  }

  /** How many steps stand, by the status of a settled journal. */
  function StandingSteps(status: JournalStatus, steps: nat): nat {
    match status
    case ForwardPending(next) => next
    case CompletionPending => steps
    case RollbackPending(_, next) => next + 1
    case RecoveryRequired(_, failed) => failed + 1
    case _ => 0
  }

  predicate GoesForward(status: JournalStatus) {
    status.ForwardPending? || status.CompletionPending?
  }

  /** The cause for which a recovery takes a transaction back. */
  function CauseOf(status: JournalStatus): RollbackCause {
    match status
    case RollbackPending(cause, _) => cause
    case RollbackCompletionPending(cause) => cause
    case RecoveryRequired(cause, _) => cause
    case _ => RecoveryRequested
  }

  /** What comes of an action: a resumed run goes on forward, anything else is taken back. */
  ghost function Carrying(run: Run, fates: Fates, spent: Spent, status: JournalStatus, action: RecoveryAction,
                          shouldCancel: nat -> bool): ExecutionOutcome
    requires StandingSteps(status, run.Steps()) <= run.Steps() <= USIZE_MAX
  {
    var k := StandingSteps(status, run.Steps());
    if GoesForward(status) && action.Resume? then Going(run, fates, spent, k, shouldCancel)
    else if GoesForward(status) then Undoing(run, fates, spent, k, CauseOf(status))
    else if status.RecoveryRequired? then Restarting(run, fates, spent, k, CauseOf(status))
    else TakingBack(run, fates, spent, k, CauseOf(status))
  }

  ghost predicate CarriesOn(run: Run, fates: Fates, spent: Spent, status: JournalStatus, action: RecoveryAction,
                          shouldCancel: nat -> bool, aim: ExecutionOutcome) {
    forall x {:trigger Unsealed(AimSeal, x)} :: Unsealed(AimSeal, x) ==>
      && StandingSteps(status, run.Steps()) <= run.Steps() <= USIZE_MAX
      && aim == Carrying(run, fates, spent, status, action, shouldCancel)
  }

  lemma CarryingMeans(run: Run, fates: Fates, spent: Spent, status: JournalStatus, action: RecoveryAction,
                     shouldCancel: nat -> bool, aim: ExecutionOutcome)
    requires CarriesOn(run, fates, spent, status, action, shouldCancel, aim)
    ensures var k, cause := StandingSteps(status, run.Steps()), CauseOf(status);
            if GoesForward(status) then
              if action.Resume? then Goes(run, fates, spent, k, shouldCancel, aim) else Undoes(run, fates, spent, k, cause, aim)
            else if status.RecoveryRequired? then Restarts(run, fates, spent, k, cause, aim)
            else Backs(run, fates, spent, k, cause, aim)
  {
    assert Unsealed(AimSeal, 0);
  }

  /** What an action leads to when only renames can fail. */
  ghost predicate AimReached(run: Run, faults: RenameFaults, at: nat, status: JournalStatus, action: RecoveryAction,
                             shouldCancel: nat -> bool, outcome: ExecutionOutcome) {
    var k := StandingSteps(status, run.Steps());
    if GoesForward(status) && action.Resume? then
      run.Steps() <= USIZE_MAX && run.plan.Complete() && outcome == Aim(run, faults, at, k, shouldCancel)
    else outcome == BackAim(faults, at, k, CauseOf(status))
  }

  lemma CarryingIsAimed(run: Run, fates: Fates, spent: Spent, status: JournalStatus, action: RecoveryAction,
                        shouldCancel: nat -> bool, outcome: ExecutionOutcome)
    requires CarriesOn(run, fates, spent, status, action, shouldCancel, outcome)
    requires run.plan.Complete() && run.Possible(StandingSteps(status, run.Steps())) && Undisturbed(fates, spent, 4 * run.Steps() + 4)
    ensures AimReached(run, fates.renames, spent.renames, status, action, shouldCancel, outcome)
  {
    assert Unsealed(AimSeal, 0);
    var k := StandingSteps(status, run.Steps());
    if GoesForward(status) && action.Resume? {
      GoingIsAimed(run, fates, spent, k, shouldCancel);
    } else if GoesForward(status) {
      UndoingIsAimed(run, fates, spent, k, CauseOf(status));
    } else if status.RecoveryRequired? {
      RestartingIsAimed(run, fates, spent, k, CauseOf(status));
    } else {
      TakingBackIsAimed(run, fates, spent, k, CauseOf(status));
    }
  }

  /** Whatever happens, the outcome is one that the status and the action allow. */
  ghost predicate IsAnswer(run: Run, status: JournalStatus, action: RecoveryAction, shouldCancel: nat -> bool,
                           records: seq<JournalRecord>, outcome: ExecutionOutcome) {
    !status.Terminal() && !status.ReconciliationRequired? &&
    if GoesForward(status) && action.Resume? then
      var k := StandingSteps(status, run.Steps());
      && (outcome == ExecutionOutcome.Finished ==> !CancelledFrom(run, k, shouldCancel))
      && HasCause(records, outcome, k, run.Steps(), shouldCancel)
    else outcome != ExecutionOutcome.Finished && Blames(records, outcome, CauseOf(status))
  }

  /** Carries on from the status of a settled journal. */
  method CarryOn(plan: PlanView, journal: DurableAppender, status: JournalStatus, action: RecoveryAction, shouldCancel: nat -> bool,
                 ghost run: Run, ghost a: nat)
    returns (outcome: ExecutionOutcome)
    requires run.plan == plan && Consistent(run, journal, a)
    requires Replayed(journal.Accepted()) == Success(status) && !status.Terminal() && !status.ReconciliationRequired?
    modifies journal, journal.sink
    ensures Concluded(run, journal, outcome)
    ensures plan.Complete() ==> !IsInvalidPlan(outcome)
    ensures IsAnswer(run, status, action, shouldCancel, journal.Accepted(), outcome)
    ensures old(journal.Live()) ==> CarriesOn(run, journal.Ahead(), old(journal.Behind()), status, action, shouldCancel, outcome)
  {
    AcceptedIsExplained(run, journal, a);
    SettledModes(run.Steps(), journal.Accepted(), a);
    StepsAreCounted(run, journal, a);
    ghost var aim := Carrying(run, journal.Ahead(), journal.Behind(), status, action, shouldCancel);
    assert CarriesOn(run, journal.Ahead(), journal.Behind(), status, action, shouldCancel, aim);
    CarryingMeans(run, journal.Ahead(), journal.Behind(), status, action, shouldCancel, aim);
    match status {
      case ForwardPending(next) =>
        if action.Resume? {
          outcome := ContinueForward(plan, journal, next, shouldCancel, run, aim);
        } else {
          NothingIsPrepared(a);
          outcome := StartRollback(plan, journal, next, RecoveryRequested, run, a, aim);
        }
      case CompletionPending =>
        if action.Resume? {
          outcome := CompleteTransaction(journal, shouldCancel, run, aim);
          NoCauseIsNeeded(journal.Accepted(), outcome, run.Steps(), run.Steps(), shouldCancel);
        } else {
          NothingIsPrepared(a);
          outcome := StartRollback(plan, journal, |plan.schedule|, RecoveryRequested, run, a, aim);
        }
      case RollbackPending(cause, next) =>
        outcome := ContinueRollback(plan, journal, next, cause, run, aim);
      case RecoveryRequired(cause, failed) =>
        outcome := RestartRollback(plan, journal, cause, failed, run, aim);
      case RollbackCompletionPending(cause) =>
        outcome := CompleteRollback(journal, cause, run, aim);
    }
  }

  lemma NothingIsPrepared(a: nat)
    ensures RollbackAdmitted(RecoveryRequested, a, Range(a, a)).Success?
  {
  }

  /** For the journal of a run with a prepared step that leaves the disk. */
  lemma RunsRefuseToTell(run: Run, records: seq<JournalRecord>, fs: FileSystem, a: nat, error: RecoveryErrorKind)
    requires Surviving(run, records, fs, a) && PreparedRefused(records, fs, error)
    requires Replayed(records).Success? && Replayed(records).value.ReconciliationRequired?
    ensures NotTold(run, fs, error)
  {
    HeaderIsReadable(run);
    assert JournalIds(run.header.entries) == SourceIds(Homes(run.header.entries));
    if !error.ScheduleFailed? && !error.MissingNativeParent? {
      var j :| j in records[0].entries && j.nativeParent.Some? && LookingFailed(fs, FrozenEntry(j, j.nativeParent.value), error);
      var i :| 0 <= i < |run.header.entries| && run.header.entries[i] == j;
      assert run.plan.entries[i] == FrozenEntry(j, j.nativeParent.value);
    }
  }

  /** The disk does not tell where a source of the plan is. */
  ghost predicate NotTold(run: Run, fs: FileSystem, error: RecoveryErrorKind) {
    exists e :: e in run.plan.entries && LookingFailed(fs, e, error)
  }

  /** Why the plan of a journal is refused: a source is elsewhere, or the disk does not tell where. */
  ghost predicate IsDisagreement(run: Run, records: seq<JournalRecord>, fs: FileSystem, error: RecoveryActionErrorKind) {
    match error
    case IdentityStateChanged => exists i :: 0 <= i < |run.plan.entries| && IsElsewhere(run.plan, records, fs, i)
    case InspectionFailed(inspection) => NotTold(run, fs, inspection)
    case _ => false
  }

  /** The plan of the journal, if the disk agrees with the records. */
  method PlanInAgreement(records: seq<JournalRecord>, fs: FileSystem, ghost run: Run, ghost a: nat) returns (r: Acting<PlanView>)
    requires Surviving(run, records, fs, a)
    ensures r.Success? ==> r.value == run.plan && run.plan.Complete() && !SeenTwice(run, fs.tree)
    ensures r.Failure? ==> IsDisagreement(run, records, fs, r.error)
    ensures fs.Untroubled() && ReplayAll(records).Success? && Unsettled(ReplayAll(records).value) == 0 ==>
              if SeenTwice(run, fs.tree) then r == Failure(IdentityStateChanged) else r.Success?
  {
    HeaderIsReadable(run);
    var read := PlanFromRecords(records);
    match read
    case Failure(kind) =>
      r := Failure(InspectionFailed(kind));
    case Success(plan) =>
      RecordsFit(run, records, a);
      HeaderGivesThePlan(run, plan);
      HeadedIsComplete(run);
      if SeenTwice(run, fs.tree) {
        SeenTwiceNeverAgrees(run, records, fs, a);
      }
      var valid := ValidateRecordedState(records, plan, fs);
      if valid.Failure? && valid.error.InspectionFailed? {
        var e :| e in plan.entries && OwnedLocations(fs, e) == Failure(valid.error.inspection);
        LookingFails(fs, e);
      }
      if fs.Untroubled() {
        AllAreFound(run, fs);
        if ReplayAll(records).Success? && Unsettled(ReplayAll(records).value) == 0 {
          SettledDiskAgrees(run, records, fs, a);
        }
      }
      r := if valid.Failure? then Failure(valid.error) else Success(plan);
  }

  lemma AllAreFound(run: Run, fs: FileSystem)
    requires Plotted(run) && fs.parents == run.parents && fs.Untroubled()
    ensures forall e :: e in run.plan.entries ==> OwnedLocations(fs, e).Success?
  {
    forall e | e in run.plan.entries ensures OwnedLocations(fs, e).Success? {
      var i :| 0 <= i < |run.plan.entries| && run.plan.entries[i] == e;
      LookingSucceeds(run, fs, i);
    }
  }

  /** What each refusal to recover means. */
  ghost predicate RecoveryRefused(run: Run, records: seq<JournalRecord>, fs: FileSystem, error: RecoveryActionErrorKind) {
    match error
    case ProtocolViolated => Replayed(records).Failure?
    case RequiresReconciliation => Replayed(records).Success? && Replayed(records).value.ReconciliationRequired?
    case ActionUnavailable => Replayed(records).Success? && Replayed(records).value.Terminal()
    case JournalRefused(_) => false
    case _ => IsDisagreement(run, records, fs, error)
  }

  /** Finishes an interrupted transaction or takes it back. */
  method RecoverTransaction(journal: DurableAppender, records: seq<JournalRecord>, trouble: Location -> Option<ExecutionFsErrorKind>,
                            action: RecoveryAction, shouldCancel: nat -> bool, ghost run: Run, ghost a: nat)
    returns (r: Acting<ExecutionOutcome>)
    requires Recoverable(run) && Consistent(run, journal, a) && records == journal.Accepted() && run.Authored(records)
    requires FileSystem(journal.sink.tree, journal.sink.parents, trouble).Honest()
    modifies journal, journal.sink
    ensures r.Failure? ==> Consistent(run, journal, a) && journal.Accepted() == records
    ensures r.Success? ==> Concluded(run, journal, r.value) && !IsInvalidPlan(r.value)
    ensures Replayed(records).Success? && Replayed(records).value.ReconciliationRequired? ==> r == Failure(RequiresReconciliation)
    ensures SeenTwice(run, old(journal.sink.tree)) ==> r.Failure?
    ensures (forall at :: trouble(at).None?) && Resumable(records) && !Replayed(records).value.ReconciliationRequired? ==>
              if SeenTwice(run, old(journal.sink.tree)) then r == Failure(IdentityStateChanged) else r.Success?
    ensures r.Success? ==> Replayed(records).Success?
    ensures r.Success? ==> IsAnswer(run, Replayed(records).value, action, shouldCancel, journal.Accepted(), r.value)
    ensures r.Success? && old(journal.Live()) ==>
              CarriesOn(run, journal.Ahead(), old(journal.Behind()), Replayed(records).value, action, shouldCancel, r.value)
    ensures r.Failure? ==> RecoveryRefused(run, records, FileSystem(journal.sink.tree, journal.sink.parents, trouble), r.error)
  {
    var fs := FileSystem(journal.sink.tree, journal.sink.parents, trouble);
    var status := ReplayJournal(records);
    if status.Failure? {
      return Failure(ProtocolViolated);
    }
    if status.value.ReconciliationRequired? {
      return Failure(RequiresReconciliation);
    }
    SurvivesWhereConsistent(run, journal, fs, a);
    var plan := PlanInAgreement(records, fs, run, a);
    if plan.Failure? {
      return Failure(plan.error);
    }
    if status.value.Terminal() {
      return Failure(ActionUnavailable);
    }
    var outcome := CarryOn(plan.value, journal, status.value, action, shouldCancel, run, a);
    return Success(outcome);
  }

  lemma HeadedIsComplete(run: Run)
    requires Headed(run) && run.plan.entries != []
    ensures run.plan.Complete()
  {
    forall k | 0 <= k < |run.plan.schedule| ensures ForwardMove(run.plan, k).Some? {
      StepMoves(run.plan, k);
    }
  }

  lemma RecordsFit(run: Run, records: seq<JournalRecord>, a: nat)
    requires Headed(run) && Explained(run.Steps(), records, a)
    ensures forall k :: 0 <= k < |records| ==> !IsBeyond(run.plan, records[k])
    ensures forall i :: 0 <= i < |run.plan.entries| ==> run.plan.entries[i].journalEntry.sourceId in Expected(run.plan, records)
  {
    assert Unsealed(ExplainedSeal, 0);
    CompletionsAreInBounds(records, run.plan);
    RecordsTellPlaces(run.plan, records);
  }
}
