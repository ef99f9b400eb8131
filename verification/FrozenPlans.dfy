/** From preview to execution: a sound plan that was frozen meets the hypotheses of the cycle theorem,
    and the executor never takes it for an invalid one. */
module FrozenPlans {
  import opened Primitives
  import opened Execution
  import opened Frames
  import opened Machine
  import opened Transaction
  import opened Plans
  import opened Lookup
  import opened Cycles
  import opened Registry
  import opened PlanRows
  import opened Planner
  import opened Freeze

  /** No two rows of one directory want the same name. */
  ghost predicate NamesApart(rows: seq<PlanRow>) {
    forall i, j :: 0 <= i < j < |rows| && rows[i].parentId == rows[j].parentId ==> rows[i].proposedName != rows[j].proposedName
  }

  /** Nor, where names compare as on Windows, names that compare equal. */
  ghost predicate ComparedApart(key: Name -> Name, rows: seq<PlanRow>) {
    forall i, j :: 0 <= i < j < |rows| && rows[i].parentId == rows[j].parentId ==> key(rows[i].proposedName) != key(rows[j].proposedName)
  }

  lemma SoundNamesAreApart(rows: seq<PlanRow>, sources: seq<SourceSnapshot>, target: TargetNames, environment: ValidationEnvironment)
    requires SoundRows(rows, sources, target, environment)
    ensures NamesApart(rows) && (target.windows ==> ComparedApart(target.comparisonKey, rows))
  {
  }

  /** A frozen plan about to run on the filesystem that it was frozen on. */
  ghost predicate Pending(run: Run, c: Contents, plan: RenamePlan, fs: FileSystem, unordered: seq<FrozenEntry>) {
    && run.initial == fs.tree && run.parents == fs.parents && fs.Honest()
    && FrozenRows(c, PlannedSources(c, plan.rows), plan.id, fs, ChangedRows(plan.rows), unordered)
    && DistinctSources(ChangedRows(plan.rows))
    && SameEntries(run.plan.entries, unordered) && Ordered(run.plan)
  }

  /** The row that an entry was frozen from. */
  lemma RowOf(run: Run, c: Contents, plan: RenamePlan, fs: FileSystem, unordered: seq<FrozenEntry>, i: nat) returns (p: nat)
    requires Pending(run, c, plan, fs, unordered) && i < |run.plan.entries|
    ensures var changed := ChangedRows(plan.rows);
            && p < |changed| && changed[p].sourceId == SourceIds(run.plan.entries)[i]
            && IsFreezable(c, PlannedSources(c, plan.rows), fs, changed[p])
            && Carries(c, plan.id, fs, changed[p], run.plan.entries[i])
  {
    SameEntriesSameIds(run.plan.entries, unordered);
    assert run.plan.entries[i] in unordered;
    p :| 0 <= p < |unordered| && unordered[p] == run.plan.entries[i];
    assert UnsealedAt(FrozenSeal, unordered[p], 0);
  }

  lemma EntryOf(run: Run, c: Contents, plan: RenamePlan, fs: FileSystem, unordered: seq<FrozenEntry>, row: PlanRow) returns (i: nat)
    requires Pending(run, c, plan, fs, unordered) && row in ChangedRows(plan.rows)
    ensures i < |run.plan.entries| && IsFreezable(c, PlannedSources(c, plan.rows), fs, row)
    ensures Carries(c, plan.id, fs, row, run.plan.entries[i])
  {
    SameEntriesSameIds(run.plan.entries, unordered);
    var p :| 0 <= p < |ChangedRows(plan.rows)| && ChangedRows(plan.rows)[p] == row;
    assert unordered[p] in unordered;
    assert UnsealedAt(FrozenSeal, unordered[p], 0);
    i :| 0 <= i < |run.plan.entries| && run.plan.entries[i] == unordered[p];
  }

  lemma FrozenEntryIsAnchored(run: Run, c: Contents, plan: RenamePlan, fs: FileSystem, unordered: seq<FrozenEntry>, i: nat)
    requires Pending(run, c, plan, fs, unordered) && Injective(fs.tree) && i < |run.plan.entries|
    ensures Anchored(run, run.plan.entries[i])
  {
    var e := run.plan.entries[i];
    var p := RowOf(run, c, plan, fs, unordered, i);
    var row := ChangedRows(plan.rows)[p];
    if FinalAt(e) in run.initial {
      var occupant := run.initial[FinalAt(e)].identity;
      assert (row.parentId, occupant) in PlannedSources(c, plan.rows);
      var owner :| owner in plan.rows && owner.status.Changed? && owner.sourceId in c.executionIdentities
                   && (owner.parentId, c.executionIdentities[owner.sourceId]) == (row.parentId, occupant);
      ChangedRowsAreRows(plan.rows, owner);
      var j := EntryOf(run, c, plan, fs, unordered, owner);
      assert OriginalAt(run.plan.entries[j]) in run.initial;
      assert OriginalAt(run.plan.entries[j]) == FinalAt(e);
    }
  }

  lemma FrozenEntriesAreApart(run: Run, c: Contents, nextSourceId: u64, nextParentId: u64, plan: RenamePlan, fs: FileSystem,
                              unordered: seq<FrozenEntry>, i: nat, j: nat)
    requires Pending(run, c, plan, fs, unordered) && Coherent(c, nextSourceId, nextParentId) && NamesApart(plan.rows)
    requires i < j < |run.plan.entries|
    ensures var a, b := run.plan.entries[i], run.plan.entries[j];
            OriginalAt(a) != OriginalAt(b) && TemporaryAt(a) != TemporaryAt(b) && FinalAt(a) != FinalAt(b)
  {
    var a, b := run.plan.entries[i], run.plan.entries[j];
    var p := RowOf(run, c, plan, fs, unordered, i);
    var q := RowOf(run, c, plan, fs, unordered, j);
    var rowA, rowB := ChangedRows(plan.rows)[p], ChangedRows(plan.rows)[q];
    assert SourceIds(run.plan.entries)[i] < SourceIds(run.plan.entries)[j];
    ChangedRowsAreRows(plan.rows, rowA);
    ChangedRowsAreRows(plan.rows, rowB);
    RowsAreApart(c, nextSourceId, nextParentId, plan.rows, rowA, rowB);
    var m: u32 :| a.journalEntry.names.temporaryName == TemporaryName(plan.id, rowA.sourceId, m);
    var n: u32 :| b.journalEntry.names.temporaryName == TemporaryName(plan.id, rowB.sourceId, n);
    TemporaryNamesDiffer(plan.id, plan.id, rowA.sourceId, rowB.sourceId, m, n);
  }

  /** Different sources have different paths, and in one directory different final names. */
  lemma RowsAreApart(c: Contents, nextSourceId: u64, nextParentId: u64, rows: seq<PlanRow>, a: PlanRow, b: PlanRow)
    requires Coherent(c, nextSourceId, nextParentId) && NamesApart(rows)
    requires a in rows && b in rows && a.sourceId != b.sourceId && Known(c, a) && Known(c, b)
    ensures c.paths[a.sourceId] != c.paths[b.sourceId]
    ensures c.paths[a.sourceId].parent == c.paths[b.sourceId].parent ==> a.proposedName != b.proposedName
  {
    assert UnsealedAt(CoherentSeal, c, 0) && UnsealedAt(LinkedSeal, c, 0);
    assert Describes(c, a.sourceId) && Describes(c, b.sourceId);
    var i :| 0 <= i < |rows| && rows[i] == a;
    var j :| 0 <= j < |rows| && rows[j] == b;
    if a.parentId == b.parentId {
      assert if i < j then rows[i].proposedName != rows[j].proposedName else rows[j].proposedName != rows[i].proposedName;
    }
  }

  /** A successful freeze discharges all hypotheses of the cycle theorem except that temporary names keep
      clear of final ones. */
  lemma FrozenIsPlotted(run: Run, c: Contents, nextSourceId: u64, nextParentId: u64, plan: RenamePlan, fs: FileSystem,
                        frozen: FrozenExecutionPlan, unordered: seq<FrozenEntry>)
    requires Frozen(c, plan, fs, frozen, unordered) && plan.CanApply()
    requires Coherent(c, nextSourceId, nextParentId) && NamesApart(plan.rows) && Injective(fs.tree) && fs.Honest()
    requires run.plan == frozen.View() && run.initial == fs.tree && run.parents == fs.parents
    ensures Plotted(run)
    ensures run.Possible(run.Steps()) <==> Unobstructed(frozen.entries)
  {
    var entries := run.plan.entries;
    forall i | 0 <= i < |entries| ensures Anchored(run, entries[i]) {
      FrozenEntryIsAnchored(run, c, plan, fs, unordered, i);
    }
    forall i, j | 0 <= i < j < |entries|
      ensures OriginalAt(entries[i]) != OriginalAt(entries[j])
      ensures TemporaryAt(entries[i]) != TemporaryAt(entries[j])
      ensures FinalAt(entries[i]) != FinalAt(entries[j])
    {
      FrozenEntriesAreApart(run, c, nextSourceId, nextParentId, plan, fs, unordered, i, j);
    }
    CyclesSucceed(run);
  }

  /** A frozen plan is complete: neither the executor nor a rollback ever reports it as invalid, and its
      header can be written and undone. */
  lemma FrozenIsComplete(c: Contents, plan: RenamePlan, fs: FileSystem, frozen: FrozenExecutionPlan, unordered: seq<FrozenEntry>)
    requires Frozen(c, plan, fs, frozen, unordered) && ChangedRows(plan.rows) != []
    ensures frozen.WellFormed() && frozen.View().Complete()
    ensures forall e :: e in frozen.entries ==> e.journalEntry.nativeParent == Some(e.parent)
  {
    SameEntriesSameIds(frozen.entries, unordered);
    forall e | e in frozen.entries
      ensures e.journalEntry.nativeParent == Some(e.parent) && e.journalEntry.parentExecutionIdentity.Some?
    {
      assert e in unordered;
      var p :| 0 <= p < |unordered| && unordered[p] == e;
      assert UnsealedAt(FrozenSeal, unordered[p], 0);
      assert FrozenRow(c, PlannedSources(c, plan.rows), plan.id, fs, ChangedRows(plan.rows)[p], unordered[p]);
    }
    var view := frozen.View();
    forall k | 0 <= k < |view.schedule| ensures ForwardMove(view, k).Some? {
      assert view.entries[Mover(|view.entries|, k)] in frozen.entries;
      StepMoves(view, k);
    }
  }
}
