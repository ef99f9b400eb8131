/** Plans that freezing lets pass although a new name is also a temporary name. */
module Collisions {
  import opened Primitives
  import opened Execution
  import opened RecordCodec
  import opened Replay
  import opened Journal
  import opened Machine
  import opened Transaction
  import opened Plans
  import opened Lookup
  import opened Cycles
  import opened Registry
  import opened PlanRows
  import opened Planner
  import opened Freeze
  import opened FrozenPlans
  import opened Undo
  import opened RoundTrip
  import opened RecoveryState
  import opened Recovery
  import opened Outcomes

  const HOME: NativePath := [0x2F]
  const NAME_A: Name := [0x61]
  const NAME_B: Name := [0x62]
  const NAME_C: Name := [0x63]

  function IdentityOf(volumeSerialNumber: u64): ExecutionIdentity {
    ExecutionIdentity(volumeSerialNumber, [0, 0, 0, 0, 0, 0, 0, 0, 0, 0, 0, 0, 0, 0, 0, 0])
  }

  const FINGERPRINT: SourceFingerprint := SourceFingerprint(File, None, 0, None)

  function SourceNamed(id: u64, name: Name): PreparedSource {
    PreparedSource(Location(HOME, name), FINGERPRINT, Some(IdentityOf(id)), Some(IdentityOf(0)))
  }

  const NOTHING: Contents := Contents(map[], map[], map[], map[], map[], map[])

  /** Two admitted sources of one directory, `a` with id 1 and `b` with id 2... */
  ghost function Selection(): Contents {
    Admitted(Admitted(NOTHING, SourceNamed(1, NAME_A), 1, 1), SourceNamed(2, NAME_B), 2, 2)
  }

  /** ...on a disk that holds just these... */
  function Disk(): FileSystem {
    FileSystem(map[Location(HOME, NAME_A) := Node(IdentityOf(1), true), Location(HOME, NAME_B) := Node(IdentityOf(2), true)],
               map[HOME := IdentityOf(0)], (at: Location) => None)
  }

  function Row(sourceId: u64, name: Name, proposed: Name): PlanRow {
    PlanRow(sourceId, 1, name, proposed, Changed, [], [], false, false)
  }

  /** ...and a plan that gives them two names. */
  function Preview(planId: u64, generation: u64, a: Name, b: Name): RenamePlan {
    RenamePlan(planId, generation, [Row(1, NAME_A, a), Row(2, NAME_B, b)], 2, 0, 0, 0)
  }

  function EntryFor(planId: u64, sourceId: u64, name: Name, proposed: Name): FrozenEntry {
    FrozenEntry(
      JournalEntry(sourceId, 1, JournalNameGraph(name, TemporaryName(planId, sourceId, 0), proposed), FINGERPRINT,
                   IdentityOf(sourceId), Some(IdentityOf(0)), Some(HOME), None), HOME)
  }

  function FrozenPlan(planId: u64, generation: u64, a: Name, b: Name): FrozenExecutionPlan {
    FrozenExecutionPlan(
      planId, generation, [EntryFor(planId, 1, NAME_A, a), EntryFor(planId, 2, NAME_B, b)],
      [ExecutionStep(0, 1, SourceToTemporary), ExecutionStep(1, 2, SourceToTemporary),
       ExecutionStep(2, 1, TemporaryToFinal), ExecutionStep(3, 2, TemporaryToFinal)])
  }

  lemma SelectionIsCoherent()
    ensures Coherent(Selection(), 3, 2)
  {
    assert IsLinked(NOTHING, 1, 1);
    assert IsCoherent(NOTHING, 1, 1);
    AdmissionKeepsCoherence(NOTHING, SourceNamed(1, NAME_A), 1, 1);
    AdmissionKeepsCoherence(Admitted(NOTHING, SourceNamed(1, NAME_A), 1, 1), SourceNamed(2, NAME_B), 2, 2);
  }

  /** Every plan that gives the two sources different names, none of them taken, is frozen. */
  lemma RowIsFrozen(planId: u64, id: u64, name: Name, proposed: Name, planned: PlannedIdentities)
    requires (id == 1 && name == NAME_A) || (id == 2 && name == NAME_B)
    requires Location(HOME, proposed) !in Disk().tree
    ensures FrozenRow(Selection(), planned, planId, Disk(), Row(id, name, proposed), EntryFor(planId, id, name, proposed))
  {
    var c, row, e := Selection(), Row(id, name, proposed), EntryFor(planId, id, name, proposed);
    assert Known(c, row);
    assert IsFreezable(c, planned, Disk(), row);
    assert IsTemporaryName(TemporaryName(planId, id, 0), planId, id);
    assert Carries(c, planId, Disk(), row, e);
  }

  /** The plan can be applied, and freezing lets it pass. */
  ghost predicate IsFrozenAs(plan: RenamePlan, frozen: FrozenExecutionPlan) {
    && plan.CanApply() && plan.changedCount == CountStatus(plan.rows, Changed) && NamesApart(plan.rows)
    && Coherent(Selection(), 3, 2) && Injective(Disk().tree) && Disk().Untroubled()
    && Frozen(Selection(), plan, Disk(), frozen, frozen.entries)
  }

  lemma PreviewIsFrozen(planId: u64, generation: u64, a: Name, b: Name)
    requires a != b && Location(HOME, a) !in Disk().tree && Location(HOME, b) !in Disk().tree
    ensures IsFrozenAs(Preview(planId, generation, a, b), FrozenPlan(planId, generation, a, b))
  {
    SelectionIsCoherent();
    RowsAreChanged([Row(1, NAME_A, a), Row(2, NAME_B, b)]);
    RowsAreFrozen(planId, a, b, PlannedSources(Selection(), [Row(1, NAME_A, a), Row(2, NAME_B, b)]));
    PlanIsOrdered(planId, generation, a, b);
    TwoFilesDiffer();
  }

  lemma RowsAreFrozen(planId: u64, a: Name, b: Name, planned: PlannedIdentities)
    requires Location(HOME, a) !in Disk().tree && Location(HOME, b) !in Disk().tree
    ensures FrozenRows(Selection(), planned, planId, Disk(), [Row(1, NAME_A, a), Row(2, NAME_B, b)],
                       [EntryFor(planId, 1, NAME_A, a), EntryFor(planId, 2, NAME_B, b)])
  {
    RowIsFrozen(planId, 1, NAME_A, a, planned);
    RowIsFrozen(planId, 2, NAME_B, b, planned);
  }

  lemma PlanIsOrdered(planId: u64, generation: u64, a: Name, b: Name)
    ensures var view := FrozenPlan(planId, generation, a, b).View(); Ordered(view) && view.Indexed()
  {
    var ids := SourceIds(FrozenPlan(planId, generation, a, b).entries);
    assert |ids| == 2 && ids[0] == 1 && ids[1] == 2;
  }

  lemma TwoFilesDiffer()
    ensures Injective(Disk().tree) && Disk().Untroubled()
  {
  }

  lemma RowsAreChanged(rows: seq<PlanRow>)
    requires |rows| == 2 && rows[0].status == rows[1].status == Changed
    ensures ChangedRows(rows) == rows && CountStatus(rows, Changed) == 2
  {
    var front := rows[..|rows| - 1];
    var none := front[..|front| - 1];
    assert front == [rows[0]] && none == [] && front == none + [rows[0]];
    assert ChangedRows(none) == [] && CountStatus(none, Changed) == 0;
    assert ChangedRows(front) == front && CountStatus(front, Changed) == 1;
    assert rows == front + [rows[1]];
  }

  function RunOf(frozen: FrozenExecutionPlan, crc: Checksum): Run
    requires frozen.View().Indexed()
  {
    Run(frozen.View(), Disk().parents, Disk().tree, Writer(crc, JOURNAL_SCHEMA_VERSION), frozen.InitialRecord())
  }

  /** Which of the two new names may be which of the two temporary ones. */
  lemma CollisionsMatter(planId: u64, generation: u64, a: Name, b: Name)
    ensures var entries := FrozenPlan(planId, generation, a, b).entries;
            var first, second := TemporaryName(planId, 1, 0), TemporaryName(planId, 2, 0);
            && (Unobstructed(entries) <==> first != a && second != a && second != b)
            && (TemporariesClear(entries) <==> first != a && first != b && second != a && second != b)
            && (KeepsTemporary(entries[0]) <==> first == a) && (KeepsTemporary(entries[1]) <==> second == b)
  {
    var entries := FrozenPlan(planId, generation, a, b).entries;
    assert TemporaryAt(entries[0]) == Location(HOME, TemporaryName(planId, 1, 0)) && FinalAt(entries[0]) == Location(HOME, a);
    assert TemporaryAt(entries[1]) == Location(HOME, TemporaryName(planId, 2, 0)) && FinalAt(entries[1]) == Location(HOME, b);
    assert entries[0] in entries && entries[1] in entries;
  }

  lemma FrozenRunIsPlotted(plan: RenamePlan, frozen: FrozenExecutionPlan, crc: Checksum)
    requires IsFrozenAs(plan, frozen) && frozen.View().Indexed()
    ensures var run := RunOf(frozen, crc); Plotted(run) && (run.Possible(run.Steps()) <==> Unobstructed(frozen.entries))
    ensures Renames(plan.rows) ==> Recoverable(RunOf(frozen, crc)) && frozen.WellFormed()
  {
    FrozenIsReady(RunOf(frozen, crc), Selection(), 3, 2, plan, Disk(), frozen, frozen.entries);
    FrozenIsPlotted(RunOf(frozen, crc), Selection(), 3, 2, plan, Disk(), frozen, frozen.entries);
  }

  /** A source that is given the very temporary name chosen for it: the plan is frozen, and yet it fails. */
  lemma OwnTemporaryNameFails(planId: u64, generation: u64, crc: Checksum)
    ensures var temporary := TemporaryName(planId, 1, 0);
            var plan, frozen := Preview(planId, generation, temporary, NAME_C), FrozenPlan(planId, generation, temporary, NAME_C);
            && plan.rows[0].proposedName == frozen.entries[0].journalEntry.names.temporaryName
            && IsFrozenAs(plan, frozen) && frozen.View().Indexed()
            && Plotted(RunOf(frozen, crc)) && !RunOf(frozen, crc).Possible(RunOf(frozen, crc).Steps())
  {
    var temporary := TemporaryName(planId, 1, 0);
    var plan, frozen := Preview(planId, generation, temporary, NAME_C), FrozenPlan(planId, generation, temporary, NAME_C);
    PreviewIsFrozen(planId, generation, temporary, NAME_C);
    CollisionsMatter(planId, generation, temporary, NAME_C);
    FrozenRunIsPlotted(plan, frozen, crc);
  }

  /** A source that is given the temporary name of an earlier one: the plan is frozen and completes, and yet it
      is not offered for an undo. */
  lemma EarlierTemporaryNameBlocksUndo(planId: u64, generation: u64, crc: Checksum)
    ensures var temporary := TemporaryName(planId, 1, 0);
            var plan, frozen := Preview(planId, generation, NAME_C, temporary), FrozenPlan(planId, generation, NAME_C, temporary);
            && plan.rows[1].proposedName == frozen.entries[0].journalEntry.names.temporaryName
            && IsFrozenAs(plan, frozen) && frozen.View().Indexed()
            && Plotted(RunOf(frozen, crc)) && RunOf(frozen, crc).Possible(RunOf(frozen, crc).Steps())
            && !TemporariesClear(frozen.entries)
  {
    var temporary := TemporaryName(planId, 1, 0);
    var plan, frozen := Preview(planId, generation, NAME_C, temporary), FrozenPlan(planId, generation, NAME_C, temporary);
    PreviewIsFrozen(planId, generation, NAME_C, temporary);
    TemporaryNamesDiffer(planId, planId, 1, 2, 0, 0);
    CollisionsMatter(planId, generation, NAME_C, temporary);
    FrozenRunIsPlotted(plan, frozen, crc);
  }

  /** Its journal passes for an undo, and yet the disk that it leaves is never ready for one. */
  lemma EarlierTemporaryNameIsNotReady(planId: u64, generation: u64, crc: Checksum, key: ComparisonKey, records: seq<JournalRecord>)
    requires key(NAME_C) != key(TemporaryName(planId, 1, 0))
    requires var frozen := FrozenPlan(planId, generation, NAME_C, TemporaryName(planId, 1, 0));
             frozen.View().Indexed() && Replayed(records) == Success(Completed) && records != [] && records[0] == frozen.InitialRecord()
    ensures var run := RunOf(FrozenPlan(planId, generation, NAME_C, TemporaryName(planId, 1, 0)), crc);
            && Admissible(key, records)
            && !AllUndoable(Disk().(tree := run.TreeAfter(run.Steps())), key, records[0].entries)
  {
    var plan := Preview(planId, generation, NAME_C, TemporaryName(planId, 1, 0));
    var frozen := FrozenPlan(planId, generation, NAME_C, TemporaryName(planId, 1, 0));
    var run := RunOf(frozen, crc);
    EarlierTemporaryNameBlocksUndo(planId, generation, crc);
    FinishedPlansCanBeUndone(run, Selection(), 3, 2, plan, Disk(), frozen, frozen.entries, records,
                             Disk().(tree := run.TreeAfter(run.Steps())), key);
  }
}
