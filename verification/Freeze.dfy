/** Freezing a previewed plan: everything is looked at once more, and temporary names are chosen. */
module Freeze {
  import opened Primitives
  import opened Execution
  import opened Machine
  import opened Transaction
  import opened Plans
  import opened Lookup
  import opened Registry
  import opened PlanRows
  import opened Planner

  datatype FreezeErrorKind =
    | PlanNotApplicable
    | GenerationMismatch(expected: u64, actual: u64)
    | RepeatedSource
    | UnknownSource
    | SourceMismatch
    | MissingFingerprint
    | MissingExecutionIdentity
    | MissingParentExecutionIdentity
    | ChangedSource
    | DestinationOccupied
    | NoTemporaryNameLeft
    | ScheduleFailed(schedule: ScheduleError)
    | FilesystemFailed(kind: ExecutionFsErrorKind)

  datatype FreezeError = FreezeError(sourceId: Option<u64>, kind: FreezeErrorKind)

  type Freezing<+T> = Result<T, FreezeError>

  type PlannedIdentities = set<(u64, ExecutionIdentity)>

  function ChangedRows(rows: seq<PlanRow>): seq<PlanRow> {
    if rows == [] then []
    else
      var front, last := ChangedRows(rows[..|rows| - 1]), rows[|rows| - 1];
      if last.status.Changed? then front + [last] else front
  }

  lemma {:induction false} ChangedRowsAreRows(rows: seq<PlanRow>, row: PlanRow)
    ensures row in ChangedRows(rows) <==> row in rows && row.status.Changed?
  {
    if rows != [] {
      ChangedRowsAreRows(rows[..|rows| - 1], row);
      assert rows == rows[..|rows| - 1] + [rows[|rows| - 1]];
    }
  }

  /** The admitted identities of the sources that the plan moves, by directory. */
  function PlannedSources(c: Contents, rows: seq<PlanRow>): PlannedIdentities {
    set row | row in rows && row.status.Changed? && row.sourceId in c.executionIdentities
      :: (row.parentId, c.executionIdentities[row.sourceId])
  }

  // ---------------------------------------------------------------- what freezing establishes

  /** The registry still describes the row's source, identities included. */
  ghost predicate Known(c: Contents, row: PlanRow) {
    var id := row.sourceId;
    && id in c.snapshots && id in c.paths && id in c.executionIdentities
    && c.paths[id].parent in c.parentExecutionIdentities
    && c.snapshots[id].parentId == row.parentId && c.snapshots[id].fingerprint.Some?
    && c.snapshots[id].nativeName == row.originalName == c.paths[id].name
  }

  /** The source is where it was admitted, and its final name is free or held by a planned source. */
  ghost predicate Freezable(c: Contents, planned: PlannedIdentities, fs: FileSystem, row: PlanRow) {
    forall x {:trigger UnsealedAt(FreezableSeal, row, x)} :: UnsealedAt(FreezableSeal, row, x) ==> IsFreezable(c, planned, fs, row)
  }

  ghost predicate IsFreezable(c: Contents, planned: PlannedIdentities, fs: FileSystem, row: PlanRow) {
    Known(c, row) &&
    var parent, identity := c.paths[row.sourceId].parent, c.executionIdentities[row.sourceId];
    var parentIdentity := c.parentExecutionIdentities[parent];
    && fs.IdentityInParent(Location(parent, row.originalName), parentIdentity) == Success(identity)
    && match fs.IdentityInParent(Location(parent, row.proposedName), parentIdentity)
       case Success(occupant) => (row.parentId, occupant) in planned
       case Failure(kind) => kind.SourceUnavailable?
  }

  /** `e` carries the row through a free temporary name. */
  ghost predicate Carries(c: Contents, planId: u64, fs: FileSystem, row: PlanRow, e: FrozenEntry)
    requires Known(c, row)
  {
    var parent, temporary := c.paths[row.sourceId].parent, e.journalEntry.names.temporaryName;
    && e == FrozenEntry(
         JournalEntry(row.sourceId, row.parentId, JournalNameGraph(row.originalName, temporary, row.proposedName),
                      c.snapshots[row.sourceId].fingerprint.value, c.executionIdentities[row.sourceId],
                      Some(c.parentExecutionIdentities[parent]), Some(parent), None),
         parent)
    && IsTemporaryName(temporary, planId, row.sourceId)
    && fs.Identity(Location(parent, temporary)) == Failure(SourceUnavailable)
  }

  ghost predicate FrozenRow(c: Contents, planned: PlannedIdentities, planId: u64, fs: FileSystem, row: PlanRow, e: FrozenEntry) {
    forall x {:trigger UnsealedAt(FrozenSeal, e, x)} :: UnsealedAt(FrozenSeal, e, x) ==>
      IsFreezable(c, planned, fs, row) && Carries(c, planId, fs, row, e)
  }

  ghost predicate FrozenRows(c: Contents, planned: PlannedIdentities, planId: u64, fs: FileSystem,
                             rows: seq<PlanRow>, entries: seq<FrozenEntry>)
  {
    |entries| == |rows| && forall i :: 0 <= i < |rows| ==> FrozenRow(c, planned, planId, fs, rows[i], entries[i])
  }

  // ---------------------------------------------------------------- why freezing refuses

  /** Every temporary name that would be tried is taken. */
  ghost predicate NamesAreUsedUp(c: Contents, planId: u64, fs: FileSystem, row: PlanRow)
    requires row.sourceId in c.paths
  {
    fs.Honest() ==>
      forall i: u32 :: i < MAX_TEMPORARY_NAME_ATTEMPTS ==>
        Location(c.paths[row.sourceId].parent, TemporaryName(planId, row.sourceId, i)) in fs.tree
  }

  /** The source is still the one that was admitted. */
  ghost predicate Unmoved(c: Contents, fs: FileSystem, row: PlanRow)
    requires Known(c, row)
  {
    var parent := c.paths[row.sourceId].parent;
    fs.IdentityInParent(Location(parent, row.originalName), c.parentExecutionIdentities[parent])
      == Success(c.executionIdentities[row.sourceId])
  }

  function LookupOf(c: Contents, fs: FileSystem, row: PlanRow, name: Name): Lookup<ExecutionIdentity>
    requires row.sourceId in c.paths && c.paths[row.sourceId].parent in c.parentExecutionIdentities
  {
    var parent := c.paths[row.sourceId].parent;
    fs.IdentityInParent(Location(parent, name), c.parentExecutionIdentities[parent])
  }

  /** What each refusal of a row means. */
  ghost predicate RowRefused(c: Contents, planned: PlannedIdentities, planId: u64, fs: FileSystem, row: PlanRow, kind: FreezeErrorKind) {
    forall x {:trigger UnsealedAt(RefusedSeal, row, x)} :: UnsealedAt(RefusedSeal, row, x) ==>
      IsRowRefused(c, planned, planId, fs, row, kind)
  }

  ghost predicate IsRowRefused(c: Contents, planned: PlannedIdentities, planId: u64, fs: FileSystem, row: PlanRow, kind: FreezeErrorKind) {
    var id := row.sourceId;
    match kind
    case UnknownSource => id !in c.snapshots || id !in c.paths
    case SourceMismatch =>
      && id in c.snapshots && id in c.paths
      && !(c.snapshots[id].parentId == row.parentId && c.snapshots[id].nativeName == row.originalName == c.paths[id].name)
    case MissingFingerprint => id in c.snapshots && c.snapshots[id].fingerprint.None?
    case MissingExecutionIdentity => id !in c.executionIdentities
    case MissingParentExecutionIdentity => id in c.paths && c.paths[id].parent !in c.parentExecutionIdentities
    case ChangedSource => Known(c, row) && LookupOf(c, fs, row, row.originalName).Success? && !Unmoved(c, fs, row)
    case DestinationOccupied =>
      && Known(c, row) && Unmoved(c, fs, row)
      && (match LookupOf(c, fs, row, row.proposedName)
          case Success(occupant) => (row.parentId, occupant) !in planned
          case Failure(trouble) => trouble.UnsupportedEntry?)
    case NoTemporaryNameLeft => IsFreezable(c, planned, fs, row) && NamesAreUsedUp(c, planId, fs, row)
    case FilesystemFailed(trouble) =>
      && Known(c, row)
      && (LookupOf(c, fs, row, row.originalName) == Failure(trouble)
          || (Unmoved(c, fs, row) && LookupOf(c, fs, row, row.proposedName) == Failure(trouble)
              && !trouble.SourceUnavailable? && !trouble.UnsupportedEntry?)
          || (IsFreezable(c, planned, fs, row)
              && exists attempt: u32 :: IsFirstSilent(fs, c.paths[row.sourceId].parent, planId, row.sourceId, attempt, trouble)))
    case _ => false
  }

  // ---------------------------------------------------------------- freezing

  /** Looks the row up in the registry. */
  method CheckAdmission(registry: SourceRegistry, planned: PlannedIdentities, planId: u64, fs: FileSystem, row: PlanRow)
    returns (r: Option<FreezeErrorKind>)
    ensures r.None? ==> Known(registry.Now(), row)
    ensures r.Some? ==> RowRefused(registry.Now(), planned, planId, fs, row, r.value)
  {
    var sourceId := row.sourceId;
    if sourceId !in registry.snapshots || sourceId !in registry.paths {
      return Some(UnknownSource);
    }
    var snapshot, path := registry.snapshots[sourceId], registry.paths[sourceId];
    if snapshot.parentId != row.parentId || snapshot.nativeName != row.originalName || path.name != row.originalName {
      return Some(SourceMismatch);
    }
    if snapshot.fingerprint.None? {
      return Some(MissingFingerprint);
    }
    if sourceId !in registry.executionIdentities {
      return Some(MissingExecutionIdentity);
    }
    if path.parent !in registry.parentExecutionIdentities {
      return Some(MissingParentExecutionIdentity);
    }
    return None;
  }

  /** Looks at the names of the row on the disk. */
  method CheckPlaces(registry: SourceRegistry, planned: PlannedIdentities, planId: u64, fs: FileSystem, row: PlanRow)
    returns (r: Option<FreezeErrorKind>)
    requires Known(registry.Now(), row)
    ensures r.None? ==> IsFreezable(registry.Now(), planned, fs, row)
    ensures r.Some? ==> RowRefused(registry.Now(), planned, planId, fs, row, r.value)
  {
    var parent := registry.paths[row.sourceId].parent;
    var admitted, parentIdentity := registry.executionIdentities[row.sourceId], registry.parentExecutionIdentities[parent];
    var identity := fs.IdentityInParent(Location(parent, row.originalName), parentIdentity);
    if identity.Failure? {
      return Some(FilesystemFailed(identity.error));
    }
    if identity.value != admitted {
      return Some(ChangedSource);
    }
    match fs.IdentityInParent(Location(parent, row.proposedName), parentIdentity) {
      case Failure(SourceUnavailable) =>
        return None;
      case Success(occupant) =>
        return if (row.parentId, occupant) in planned then None else Some(DestinationOccupied);
      case Failure(UnsupportedEntry) =>
        return Some(DestinationOccupied);
      case Failure(kind) =>
        return Some(FilesystemFailed(kind));
    }
  }

  method FreezeRow(registry: SourceRegistry, planned: PlannedIdentities, planId: u64, fs: FileSystem, row: PlanRow)
    returns (r: Freezing<FrozenEntry>)
    ensures r.Success? ==> FrozenRow(registry.Now(), planned, planId, fs, row, r.value)
    ensures r.Failure? ==>
              r.error.sourceId == Some(row.sourceId) && RowRefused(registry.Now(), planned, planId, fs, row, r.error.kind)
  {
    var sourceId := row.sourceId;
    var refusal := CheckAdmission(registry, planned, planId, fs, row);
    if refusal.Some? {
      return Failure(FreezeError(Some(sourceId), refusal.value));
    }
    refusal := CheckPlaces(registry, planned, planId, fs, row);
    if refusal.Some? {
      return Failure(FreezeError(Some(sourceId), refusal.value));
    }
    var parent := registry.paths[sourceId].parent;
    var temporary := AvailableTemporaryName(fs, parent, planId, sourceId);
    if temporary.Failure? {
      var kind := match temporary.error
        case TemporaryNameExhausted => NoTemporaryNameLeft
        case TemporaryNameTrouble(kind) => FilesystemFailed(kind);
      return Failure(FreezeError(Some(sourceId), kind));
    }
    var names := JournalNameGraph(row.originalName, temporary.value, row.proposedName);
    return Success(FrozenEntry(
      JournalEntry(sourceId, row.parentId, names, registry.snapshots[sourceId].fingerprint.value,
                   registry.executionIdentities[sourceId], Some(registry.parentExecutionIdentities[parent]), Some(parent), None),
      parent));
  }

  ghost predicate DistinctSources(rows: seq<PlanRow>) {
    forall i, j :: 0 <= i < j < |rows| ==> rows[i].sourceId != rows[j].sourceId
  }

  /** The first row that is refused refuses the plan. */
  ghost predicate RowsRefused(c: Contents, plan: RenamePlan, fs: FileSystem, error: FreezeError) {
    var changed := ChangedRows(plan.rows);
    || (error.kind.RepeatedSource? && !DistinctSources(changed))
    || exists row :: row in changed && error.sourceId == Some(row.sourceId)
                     && RowRefused(c, PlannedSources(c, plan.rows), plan.id, fs, row, error.kind)
  }

  /** On a readable disk, rows that pass the checks are only refused for want of a temporary name. */
  lemma OnlyNamesRunOut(c: Contents, plan: RenamePlan, fs: FileSystem, error: FreezeError)
    requires RowsRefused(c, plan, fs, error) && fs.Untroubled() && DistinctSources(ChangedRows(plan.rows))
    requires forall row :: row in ChangedRows(plan.rows) ==> Freezable(c, PlannedSources(c, plan.rows), fs, row)
    ensures error.kind.NoTemporaryNameLeft?
  {
    var row :| row in ChangedRows(plan.rows) && error.sourceId == Some(row.sourceId)
               && RowRefused(c, PlannedSources(c, plan.rows), plan.id, fs, row, error.kind);
    assert UnsealedAt(RefusedSeal, row, 0) && UnsealedAt(FreezableSeal, row, 0);
  }

  /** On an honest disk a row is only refused for want of a temporary name in a crowded directory. */
  lemma NamesRunOutInCrowds(c: Contents, plan: RenamePlan, fs: FileSystem, error: FreezeError)
    requires RowsRefused(c, plan, fs, error) && error.kind.NoTemporaryNameLeft? && fs.Honest()
    ensures !Uncrowded(fs)
  {
    var row :| row in ChangedRows(plan.rows) && error.sourceId == Some(row.sourceId)
               && RowRefused(c, PlannedSources(c, plan.rows), plan.id, fs, row, error.kind);
    assert UnsealedAt(RefusedSeal, row, 0);
    var parent := c.paths[row.sourceId].parent;
    TakenNamesCrowd(fs.tree, parent, plan.id, row.sourceId);
    assert |EntriesIn(fs.tree, parent)| >= 1024;
  }

  /** Freezes the changed rows one by one. */
  method FreezeRows(registry: SourceRegistry, plan: RenamePlan, fs: FileSystem) returns (r: Freezing<seq<FrozenEntry>>)
    ensures var c := registry.Now(); var changed := ChangedRows(plan.rows);
            && (r.Success? ==> FrozenRows(c, PlannedSources(c, plan.rows), plan.id, fs, changed, r.value) && DistinctSources(changed))
            && (r.Failure? ==> RowsRefused(c, plan, fs, r.error))
  {
    ghost var c := registry.Now();
    var planned := PlannedSources(registry.Now(), plan.rows);
    var sourceIds: set<u64> := {};
    var entries: seq<FrozenEntry> := [];
    for i := 0 to |plan.rows|
      invariant FrozenRows(c, planned, plan.id, fs, ChangedRows(plan.rows[..i]), entries)
      invariant DistinctSources(ChangedRows(plan.rows[..i]))
      invariant forall id :: id in sourceIds <==> exists row :: row in ChangedRows(plan.rows[..i]) && row.sourceId == id
    {
      var row := plan.rows[i];
      assert plan.rows[..i + 1][..i] == plan.rows[..i];
      if !row.status.Changed? {
        continue;
      }
      ChangedRowsGrow(plan.rows, i);
      if row.sourceId in sourceIds {
        RepeatsAreSeen(plan.rows, i);
        return Failure(FreezeError(Some(row.sourceId), RepeatedSource));
      }
      sourceIds := sourceIds + {row.sourceId};
      var e := FreezeRow(registry, planned, plan.id, fs, row);
      if e.Failure? {
        ChangedRowsAreRows(plan.rows, row);
        return Failure(e.error);
      }
      entries := entries + [e.value];
    }
    assert plan.rows[..|plan.rows|] == plan.rows;
    return Success(entries);
  }

  lemma {:induction false} ChangedRowsGrow(rows: seq<PlanRow>, i: nat)
    requires i < |rows| && rows[i].status.Changed?
    ensures rows[..i + 1][..i] == rows[..i]
    ensures ChangedRows(rows[..i + 1]) == ChangedRows(rows[..i]) + [rows[i]]
    ensures ChangedRows(rows[..i + 1]) <= ChangedRows(rows)
    decreases |rows| - i
  {
    assert rows[..i + 1][..i] == rows[..i];
    ChangedRowsOfPrefix(rows, i + 1);
  }

  lemma {:induction false} ChangedRowsOfPrefix(rows: seq<PlanRow>, n: nat)
    requires n <= |rows|
    ensures ChangedRows(rows[..n]) <= ChangedRows(rows)
    decreases |rows|
  {
    if n == |rows| {
      assert rows[..n] == rows;
    } else {
      ChangedRowsOfPrefix(rows[..|rows| - 1], n);
      assert rows[..|rows| - 1][..n] == rows[..n];
    }
  }

  lemma RepeatsAreSeen(rows: seq<PlanRow>, i: nat)
    requires i < |rows| && rows[i].status.Changed?
    requires exists row :: row in ChangedRows(rows[..i]) && row.sourceId == rows[i].sourceId
    ensures !DistinctSources(ChangedRows(rows))
  {
    ChangedRowsGrow(rows, i);
    var front, all := ChangedRows(rows[..i]), ChangedRows(rows);
    var row :| row in front && row.sourceId == rows[i].sourceId;
    var j :| 0 <= j < |front| && front[j] == row;
    assert (front + [rows[i]])[|front|] == rows[i] && (front + [rows[i]])[j] == row;
    assert all[j].sourceId == all[|front|].sourceId;
  }

  lemma FrozenIdsDiffer(c: Contents, plan: RenamePlan, fs: FileSystem, entries: seq<FrozenEntry>)
    requires FrozenRows(c, PlannedSources(c, plan.rows), plan.id, fs, ChangedRows(plan.rows), entries)
    requires DistinctSources(ChangedRows(plan.rows))
    ensures DuplicateFree(SourceIds(entries)) && |entries| == |ChangedRows(plan.rows)|
  {
    var ids, changed := SourceIds(entries), ChangedRows(plan.rows);
    forall i | 0 <= i < |ids| ensures ids[i] == changed[i].sourceId {
      assert UnsealedAt(FrozenSeal, entries[i], 0);
    }
    DistinctIsDuplicateFree(ids);
  }

  /** The changed rows, few enough for a schedule, are of different sources and pass the checks. */
  ghost predicate CheckedRows(c: Contents, plan: RenamePlan, fs: FileSystem) {
    var changed := ChangedRows(plan.rows);
    && 0 < 2 * |changed| <= USIZE_MAX && DistinctSources(changed)
    && forall row :: row in changed ==> Freezable(c, PlannedSources(c, plan.rows), fs, row)
  }

  lemma CheckedRowsAreFrozen(c: Contents, plan: RenamePlan, fs: FileSystem)
    requires fs.Honest() && Uncrowded(fs)
    ensures forall error :: RowsRefused(c, plan, fs, error) ==> !error.kind.NoTemporaryNameLeft?
    ensures fs.Untroubled() && CheckedRows(c, plan, fs) ==> forall error :: !RowsRefused(c, plan, fs, error)
  {
    forall error | RowsRefused(c, plan, fs, error)
      ensures !error.kind.NoTemporaryNameLeft?
      ensures !(fs.Untroubled() && CheckedRows(c, plan, fs))
    {
      if error.kind.NoTemporaryNameLeft? {
        NamesRunOutInCrowds(c, plan, fs, error);
      }
      if fs.Untroubled() && CheckedRows(c, plan, fs) {
        OnlyNamesRunOut(c, plan, fs, error);
      }
    }
  }

  method FreezeExecutionPlan(registry: SourceRegistry, plan: RenamePlan, fs: FileSystem)
    returns (r: Freezing<FrozenExecutionPlan>, ghost unordered: seq<FrozenEntry>)
    ensures !plan.CanApply() ==> r == Failure(FreezeError(None, PlanNotApplicable))
    ensures plan.CanApply() && plan.generation != registry.generation ==>
              r == Failure(FreezeError(None, GenerationMismatch(plan.generation, registry.generation)))
    ensures r.Success? ==> plan.CanApply() && Frozen(registry.Now(), plan, fs, r.value, unordered)
    ensures plan.CanApply() && plan.generation == registry.generation && r.Failure? ==>
              || RowsRefused(registry.Now(), plan, fs, r.error)
              || (r.error.kind.ScheduleFailed? && (ChangedRows(plan.rows) == [] || 2 * |ChangedRows(plan.rows)| > USIZE_MAX))
    ensures fs.Honest() && Uncrowded(fs) && r.Failure? ==> !r.error.kind.NoTemporaryNameLeft?
    ensures plan.CanApply() && plan.generation == registry.generation && CheckedRows(registry.Now(), plan, fs) ==>
              fs.Untroubled() && Uncrowded(fs) ==> r.Success?
  {
    if fs.Honest() && Uncrowded(fs) {
      CheckedRowsAreFrozen(registry.Now(), plan, fs);
    }
    unordered := [];
    if !plan.CanApply() {
      return Failure(FreezeError(None, PlanNotApplicable)), [];
    }
    if plan.generation != registry.generation {
      return Failure(FreezeError(None, GenerationMismatch(plan.generation, registry.generation))), [];
    }
    var entries := FreezeRows(registry, plan, fs);
    if entries.Failure? {
      return Failure(entries.error), [];
    }
    var frozen := FromEntries(plan.id, plan.generation, entries.value);
    if frozen.Failure? {
      FrozenIdsDiffer(registry.Now(), plan, fs, entries.value);
      return Failure(FreezeError(None, ScheduleFailed(frozen.error))), [];
    }
    return Success(frozen.value), entries.value;
  }

  ghost predicate Frozen(c: Contents, plan: RenamePlan, fs: FileSystem, frozen: FrozenExecutionPlan, unordered: seq<FrozenEntry>) {
    && frozen.planId == plan.id && frozen.sourceGeneration == plan.generation
    && FrozenRows(c, PlannedSources(c, plan.rows), plan.id, fs, ChangedRows(plan.rows), unordered)
    && DistinctSources(ChangedRows(plan.rows))
    && SameEntries(frozen.entries, unordered) && Ordered(frozen.View()) && frozen.View().Indexed()
  }
}
