/** Telling from the disk what became of a transaction: where each source is, and whether a prepared
    step was taken. */
module RecoveryState {
  import opened Primitives
  import opened Execution
  import opened Replay
  import opened Frames
  import opened Machine
  import opened Transaction
  import opened Plans
  import opened Lookup
  import opened Cycles

  datatype RecoveryErrorKind =
    | InvalidProtocol
    | StateNotReconcilable
    | MissingNativeParent
    | MissingParentExecutionIdentity
    | MissingEntry
    | ScheduleFailed(schedule: ScheduleError)
    | FilesystemFailed(kind: ExecutionFsErrorKind)

  type Recovering<+T> = Result<T, RecoveryErrorKind>

  datatype RecoveryLocation = AtOriginal | AtTemporary | AtFinal

  datatype LocationState = AbsentEntry | TransactionOwned | OtherEntry

  datatype Disposition = NotApplied | Applied | Missing | MultipleLocations | UnexpectedLocation

  function NameAt(e: JournalEntry, location: RecoveryLocation): Name {
    match location
    case AtOriginal => e.names.originalName
    case AtTemporary => e.names.temporaryName
    case AtFinal => e.names.finalName
  }

  function Observe(fs: FileSystem, e: FrozenEntry, location: RecoveryLocation): Recovering<LocationState> {
    if e.journalEntry.parentExecutionIdentity.None? then Failure(MissingParentExecutionIdentity)
    else match fs.IdentityInParent(Location(e.parent, NameAt(e.journalEntry, location)), e.journalEntry.parentExecutionIdentity.value)
      case Success(identity) => Success(if identity == e.journalEntry.executionIdentity then TransactionOwned else OtherEntry)
      case Failure(SourceUnavailable) => Success(AbsentEntry)
      case Failure(UnsupportedEntry) => Success(OtherEntry)
      case Failure(kind) => Failure(FilesystemFailed(kind))
  }

  /** The places where the source is found, in the order original, temporary, final. */
  function OwnedLocations(fs: FileSystem, e: FrozenEntry): Recovering<seq<RecoveryLocation>> {
    var original :- Observe(fs, e, AtOriginal);
    var temporary :- Observe(fs, e, AtTemporary);
    var final :- Observe(fs, e, AtFinal);
    Success((if original.TransactionOwned? then [AtOriginal] else [])
            + (if temporary.TransactionOwned? then [AtTemporary] else [])
            + (if final.TransactionOwned? then [AtFinal] else []))
  }

  /** The disk does not tell about a name of the entry; the error is the one that it answered there. */
  ghost predicate LookingFailed(fs: FileSystem, e: FrozenEntry, error: RecoveryErrorKind) {
    match e.journalEntry.parentExecutionIdentity
    case None => error == MissingParentExecutionIdentity
    case Some(identity) =>
      && error.FilesystemFailed? && !error.kind.SourceUnavailable? && !error.kind.UnsupportedEntry?
      && exists location :: fs.IdentityInParent(Location(e.parent, NameAt(e.journalEntry, location)), identity) == Failure(error.kind)
  }

  lemma LookingFails(fs: FileSystem, e: FrozenEntry)
    requires OwnedLocations(fs, e).Failure?
    ensures LookingFailed(fs, e, OwnedLocations(fs, e).error)
  {
    if Observe(fs, e, AtOriginal).Success? && Observe(fs, e, AtTemporary).Success? {
      assert Observe(fs, e, AtFinal).Failure?;
    }
  }

  function StepLocations(direction: ExecutionDirection, phase: ExecutionPhase): (RecoveryLocation, RecoveryLocation) {
    var (source, target) := if phase.SourceToTemporary? then (AtOriginal, AtTemporary) else (AtTemporary, AtFinal);
    if direction.Forwards? then (source, target) else (target, source)
  }

  function DispositionOf(owned: seq<RecoveryLocation>, source: RecoveryLocation, target: RecoveryLocation): Disposition {
    if owned == [] then Missing
    else if |owned| > 1 then MultipleLocations
    else if owned[0] == source then NotApplied
    else if owned[0] == target then Applied
    else UnexpectedLocation
  }

  // ---------------------------------------------------------------- the plan in a header

  function Homes(entries: seq<JournalEntry>): (r: seq<FrozenEntry>)
    requires forall e :: e in entries ==> e.nativeParent.Some?
    ensures |r| == |entries|
    ensures forall i :: 0 <= i < |r| ==> entries[i].nativeParent.Some? && r[i] == FrozenEntry(entries[i], entries[i].nativeParent.value)
  {
    seq(|entries|, i requires 0 <= i < |entries| =>
      assert entries[i] in entries; FrozenEntry(entries[i], entries[i].nativeParent.value))
  }

  /** Entries as the header lists them, and the schedule over their ids. */
  method PlanFromRecords(records: seq<JournalRecord>) returns (r: Recovering<PlanView>)
    ensures r.Success? ==>
              && records != [] && records[0].TransactionStarted?
              && (forall e :: e in records[0].entries ==> e.nativeParent.Some? && e.parentExecutionIdentity.Some?)
              && r.value.entries == Homes(records[0].entries)
              && IsScheduleOf(r.value.schedule, SourceIds(r.value.entries))
    ensures records != [] && records[0].TransactionStarted? && r.Failure? ==>
              || (r.error.MissingNativeParent? && exists e :: e in records[0].entries && e.nativeParent.None?)
              || (r.error.MissingParentExecutionIdentity? && exists e :: e in records[0].entries && e.parentExecutionIdentity.None?)
              || r.error.ScheduleFailed?
    ensures records != [] && records[0].TransactionStarted? && r.Failure? && r.error.ScheduleFailed? ==>
              (forall e :: e in records[0].entries ==> e.nativeParent.Some?)
              && var ids := SourceIds(Homes(records[0].entries));
                 ids == [] || !DuplicateFree(ids) || 2 * |ids| > USIZE_MAX
  {
    if records == [] || !records[0].TransactionStarted? {
      return Failure(InvalidProtocol);
    }
    var entries := records[0].entries;
    if exists e :: e in entries && e.nativeParent.None? {
      return Failure(MissingNativeParent);
    }
    if exists e :: e in entries && e.parentExecutionIdentity.None? {
      return Failure(MissingParentExecutionIdentity);
    }
    var homes := Homes(entries);
    var schedule := BuildTwoPhaseSchedule(SourceIds(homes));
    if schedule.Failure? {
      return Failure(ScheduleFailed(schedule.error));
    }
    return Success(PlanView(schedule.value, homes));
  }

  /** The header describes the plan of the run. */
  ghost predicate Headed(run: Run) {
    && Ordered(run.plan)
    && run.header.TransactionStarted? && run.header.entries == JournalEntries(run.plan.entries)
    && forall i :: 0 <= i < |run.plan.entries| ==> run.plan.entries[i].journalEntry.nativeParent == Some(run.plan.entries[i].parent)
                                                   && run.plan.entries[i].journalEntry.parentExecutionIdentity.Some?
  }

  lemma HeaderGivesThePlan(run: Run, plan: PlanView)
    requires Headed(run) && run.plan.entries != []
    requires (forall e :: e in run.header.entries ==> e.nativeParent.Some?)
    requires plan.entries == Homes(run.header.entries) && IsScheduleOf(plan.schedule, SourceIds(plan.entries))
    ensures plan == run.plan
  {
    assert plan.entries == run.plan.entries;
    var ids := SourceIds(run.plan.entries);
    assert IsScheduleOf(run.plan.schedule, ids);
    ScheduleIsCanonical(ids, ids, plan.schedule, run.plan.schedule);
  }

  lemma HeaderIsReadable(run: Run)
    requires Headed(run) && run.plan.entries != []
    ensures forall e :: e in run.header.entries ==> e.nativeParent.Some? && e.parentExecutionIdentity.Some?
    ensures var ids := SourceIds(Homes(run.header.entries)); ids != [] && DuplicateFree(ids) && 2 * |ids| <= USIZE_MAX
  {
    forall e | e in run.header.entries ensures e.nativeParent.Some? && e.parentExecutionIdentity.Some? {
      var i :| 0 <= i < |run.header.entries| && run.header.entries[i] == e;
      assert e == run.plan.entries[i].journalEntry;
    }
    assert Homes(run.header.entries) == run.plan.entries;
    AscendingIsDuplicateFree(SourceIds(run.plan.entries));
  }

  // ---------------------------------------------------------------- where a source is

  /** Where source `i` of `n` is after `a` steps. */
  function PlaceAfter(n: nat, i: nat, a: nat): RecoveryLocation {
    if a <= i then AtOriginal else if a <= n + i then AtTemporary else AtFinal
  }

  /** The names of an entry that lead to a location, in the order original, temporary, final. */
  ghost function PlacesAt(e: FrozenEntry, at: Location): seq<RecoveryLocation> {
    (if OriginalAt(e) == at then [AtOriginal] else [])
    + (if TemporaryAt(e) == at then [AtTemporary] else [])
    + (if FinalAt(e) == at then [AtFinal] else [])
  }

  /** With one name for each entry of the disk, a source is found exactly where the steps have left it, once
      under each of its names that lead there. */
  lemma SourceIsFound(run: Run, fs: FileSystem, a: nat, i: nat)
    requires Plotted(run) && i < |run.plan.entries|
    requires Laid(run, fs.tree, a) && Injective(fs.tree) && fs.parents == run.parents && fs.Honest()
    requires OwnedLocations(fs, run.plan.entries[i]).Success?
    ensures OwnedLocations(fs, run.plan.entries[i]).value == PlacesAt(run.plan.entries[i], Spot(run.plan.entries, i, a))
  {
    var entries := run.plan.entries;
    var e := entries[i];
    assert Anchored(run, e) by { assert Unsealed(PlottedSeal, 0); }
    assert Spot(entries, i, a) in fs.tree && fs.tree[Spot(entries, i, a)] == Node(e.journalEntry.executionIdentity, true) by {
      assert UnsealedAt(LaidSeal, fs.tree, 0);
    }
    forall location
      ensures Observe(fs, e, location).value.TransactionOwned? <==>
                Location(e.parent, NameAt(e.journalEntry, location)) == Spot(entries, i, a)
    {
      FoundOnlyThere(fs, e, location, Spot(entries, i, a));
    }
  }

  /** Every source is given another name than it has. */
  ghost predicate AllMoved(entries: seq<FrozenEntry>) {
    forall e :: e in entries ==> OriginalAt(e) != FinalAt(e)
  }

  /** The source is given the very temporary name that was chosen for it. */
  ghost predicate KeepsTemporary(e: FrozenEntry) {
    TemporaryAt(e) == FinalAt(e)
  }

  /** So a source is in one place, unless it has left for a temporary name that is its final one as well. */
  lemma FoundOnceOrTwice(run: Run, i: nat, a: nat)
    requires Plotted(run) && AllMoved(run.plan.entries) && i < |run.plan.entries|
    ensures var e := run.plan.entries[i];
            PlacesAt(e, Spot(run.plan.entries, i, a))
            == if KeepsTemporary(e) && a > i then [AtTemporary, AtFinal] else [PlaceAfter(|run.plan.entries|, i, a)]
  {
    var e := run.plan.entries[i];
    assert Anchored(run, e) by { assert Unsealed(PlottedSeal, 0); }
    assert e in run.plan.entries;
    assert OriginalAt(e) != TemporaryAt(e) && OriginalAt(e) != FinalAt(e);
  }

  lemma FoundOnlyThere(fs: FileSystem, e: FrozenEntry, location: RecoveryLocation, at: Location)
    requires e.journalEntry.parentExecutionIdentity.Some? && e.parent in fs.parents
    requires fs.parents[e.parent] == e.journalEntry.parentExecutionIdentity.value
    requires at in fs.tree && fs.tree[at] == Node(e.journalEntry.executionIdentity, true) && Injective(fs.tree)
    requires Observe(fs, e, location).Success? && fs.Honest()
    ensures Observe(fs, e, location).value.TransactionOwned? <==> Location(e.parent, NameAt(e.journalEntry, location)) == at
  {
  }

  lemma LookingSucceeds(run: Run, fs: FileSystem, i: nat)
    requires Plotted(run) && i < |run.plan.entries| && fs.parents == run.parents && fs.Untroubled()
    ensures OwnedLocations(fs, run.plan.entries[i]).Success?
  {
    assert Anchored(run, run.plan.entries[i]) by { assert Unsealed(PlottedSeal, 0); }
  }

  /** A step that starts from place `source` of mover `m` and was prepared: the disposition tells exactly
      whether it was taken, unless the source has moved on twice. */
  lemma ForwardDisposition(n: nat, c: nat, a: nat)
    requires c < 2 * n && c <= a
    ensures var m := Mover(n, c);
            var (source, target) := StepLocations(Forwards, if c < n then SourceToTemporary else TemporaryToFinal);
            var disposition := DispositionOf([PlaceAfter(n, m, a)], source, target);
            && (disposition == NotApplied <==> a == c)
            && (disposition == Applied <==> a > c && (c < n ==> a <= n + c))
            && (disposition == UnexpectedLocation <==> c < n && a > n + c)
  {
  }

  lemma BackwardDisposition(n: nat, k: nat, a: nat)
    requires 0 < k <= 2 * n && (a == k || a == k - 1)
    ensures var m := Mover(n, k - 1);
            var (source, target) := StepLocations(Backwards, if k - 1 < n then SourceToTemporary else TemporaryToFinal);
            var disposition := DispositionOf([PlaceAfter(n, m, a)], source, target);
            && (disposition == NotApplied <==> a == k)
            && (disposition == Applied <==> a == k - 1)
  {
  }

  // ---------------------------------------------------------------- what the completions on record say

  /** What one record changes about where the sources are expected. */
  function Told(plan: PlanView, expected: map<u64, RecoveryLocation>, record: JournalRecord): map<u64, RecoveryLocation> {
    if record.ForwardStepCompleted? && record.stepIndex < |plan.schedule| then
      expected[plan.schedule[record.stepIndex].sourceId := StepLocations(Forwards, plan.schedule[record.stepIndex].phase).1]
    else if record.RollbackStepCompleted? && record.stepIndex < |plan.schedule| then
      expected[plan.schedule[record.stepIndex].sourceId := StepLocations(Backwards, plan.schedule[record.stepIndex].phase).1]
    else expected
  }

  /** Where the completed steps on record have brought each source. */
  function Expected(plan: PlanView, records: seq<JournalRecord>): map<u64, RecoveryLocation> {
    if records == [] then map id | id in SourceIds(plan.entries) :: AtOriginal
    else Told(plan, Expected(plan, records[..|records| - 1]), records[|records| - 1])
  }

  /** Every source is expected where `a` steps leave it. */
  ghost predicate ExpectedAfter(plan: PlanView, expected: map<u64, RecoveryLocation>, a: nat) {
    forall i :: 0 <= i < |plan.entries| ==>
      plan.entries[i].journalEntry.sourceId in expected
      && expected[plan.entries[i].journalEntry.sourceId] == PlaceAfter(|plan.entries|, i, a)
  }

  /** The steps that are on record as taken and not taken back. */
  function Standing(mode: ReplayMode, steps: nat): nat {
    match mode
    case Forward(next, _, _) => next
    case Rollback(_, remaining, _) => |remaining|
    case Stuck(_, _, remaining) => |remaining|
    case Finished => steps
    case Reverted(_) => 0
  }

  lemma CompletionMoves(plan: PlanView, expected: map<u64, RecoveryLocation>, c: nat)
    requires Ordered(plan) && c < |plan.schedule|
    ensures ExpectedAfter(plan, expected, c) ==>
              ExpectedAfter(plan, expected[plan.schedule[c].sourceId := StepLocations(Forwards, plan.schedule[c].phase).1], c + 1)
    ensures ExpectedAfter(plan, expected, c + 1) ==>
              ExpectedAfter(plan, expected[plan.schedule[c].sourceId := StepLocations(Backwards, plan.schedule[c].phase).1], c)
  {
    var n, m := |plan.entries|, Mover(|plan.entries|, c);
    var ids := SourceIds(plan.entries);
    assert plan.schedule[c] == ExecutionStep(c, ids[m], if c < n then SourceToTemporary else TemporaryToFinal);
    forall i | 0 <= i < n && i != m
      ensures plan.entries[i].journalEntry.sourceId != plan.schedule[c].sourceId
      ensures PlaceAfter(n, i, c) == PlaceAfter(n, i, c + 1)
    {
      assert ids[i] != ids[m] by {
        if i < m { assert ids[i] < ids[m]; } else { assert ids[m] < ids[i]; }
      }
    }
  }

  lemma OneRecordTells(plan: PlanView, expected: map<u64, RecoveryLocation>, mode: ReplayMode, record: JournalRecord, after: ReplayMode)
    requires Ordered(plan) && Canonical(mode, |plan.schedule|)
    requires ApplyRecord(mode, |plan.schedule|, record) == Success(after)
    requires ExpectedAfter(plan, expected, Standing(mode, |plan.schedule|))
    ensures ExpectedAfter(plan, Told(plan, expected, record), Standing(after, |plan.schedule|))
  {
    StandingMoves(plan, mode, record, after);
    if record.ForwardStepCompleted? || record.RollbackStepCompleted? {
      CompletionMoves(plan, expected, record.stepIndex);
    }
  }

  lemma StandingMoves(plan: PlanView, mode: ReplayMode, record: JournalRecord, after: ReplayMode)
    requires Canonical(mode, |plan.schedule|) && ApplyRecord(mode, |plan.schedule|, record) == Success(after)
    ensures var was, now := Standing(mode, |plan.schedule|), Standing(after, |plan.schedule|);
            if record.ForwardStepCompleted? then was == record.stepIndex < |plan.schedule| && now == was + 1
            else if record.RollbackStepCompleted? then was == record.stepIndex + 1 <= |plan.schedule| && now == was - 1
            else now == was
  {
  }

  lemma StartsAtOriginals(plan: PlanView)
    ensures ExpectedAfter(plan, Expected(plan, []), 0)
  {
    forall i | 0 <= i < |plan.entries| ensures plan.entries[i].journalEntry.sourceId in SourceIds(plan.entries) {
      assert SourceIds(plan.entries)[i] == plan.entries[i].journalEntry.sourceId;
    }
  }

  /** The completions on record say exactly where the standing steps leave every source. */
  lemma {:induction false} RecordsTellPlaces(plan: PlanView, records: seq<JournalRecord>)
    requires Ordered(plan) && ReplayAll(records).Success? && StepCount(records) == |plan.schedule|
    ensures ExpectedAfter(plan, Expected(plan, records), Standing(ReplayAll(records).value, |plan.schedule|))
  {
    var front, last := records[..|records| - 1], records[|records| - 1];
    if |records| == 1 {
      assert front == [];
      StartsAtOriginals(plan);
    } else {
      RecordsTellPlaces(plan, front);
      ReplayInvariant(front);
      OneRecordTells(plan, Expected(plan, front), ReplayAll(front).value, last, ReplayAll(records).value);
    }
  }
}
