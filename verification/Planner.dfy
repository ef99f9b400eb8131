/** The preview: one row for each source, and the objections that keep a plan from being applied. */
module Planner {
  import opened Primitives
  import opened Execution
  import opened Sequence
  import opened PlanRows

  const MAX_OVERRIDES: nat := 100_000
  const MAX_OVERRIDE_TEXT_BYTES: nat := 4_096

  datatype OccupiedName = OccupiedName(parentId: u64, nativeName: Name)

  /** What a look at the disk has found. */
  datatype ValidationEnvironment = ValidationEnvironment(
    staleSources: set<u64>, unavailableParents: set<u64>, occupiedNames: seq<OccupiedName>, ancestorConflicts: set<u64>)

  datatype NameOverride = NameOverride(sourceId: u64, proposedName: Name)

  datatype RenamePlan = RenamePlan(
    id: u64, generation: u64, rows: seq<PlanRow>, changedCount: nat, blockedCount: nat,
    retainedTraceBytes: usize, traceTruncatedRowCount: nat)
  {
    predicate CanApply() {
      changedCount > 0 && blockedCount == 0
    }
  }

  // ---------------------------------------------------------------- counting

  function CountStatus(rows: seq<PlanRow>, status: NameStatus): nat {
    if rows == [] then 0
    else CountStatus(rows[..|rows| - 1], status) + if rows[|rows| - 1].status == status then 1 else 0
  }

  function TotalTraceBytes(rows: seq<PlanRow>): nat {
    if rows == [] then 0 else TotalTraceBytes(rows[..|rows| - 1]) + RetainedTraceBytes(rows[|rows| - 1].trace)
  }

  function CountTruncated(rows: seq<PlanRow>): nat {
    if rows == [] then 0 else CountTruncated(rows[..|rows| - 1]) + if rows[|rows| - 1].traceTruncated then 1 else 0
  }

  method NewPlan(id: u64, generation: u64, rows: seq<PlanRow>) returns (plan: RenamePlan)
    ensures plan.id == id && plan.generation == generation && plan.rows == rows
    ensures plan.changedCount == CountStatus(rows, Changed) && plan.blockedCount == CountStatus(rows, Blocked)
    ensures plan.retainedTraceBytes == SaturatingAdd(TotalTraceBytes(rows), 0)
    ensures plan.traceTruncatedRowCount == CountTruncated(rows)
  {
    var changed, blocked, truncated := 0, 0, 0;
    var retained: usize := 0;
    for i := 0 to |rows|
      invariant changed == CountStatus(rows[..i], Changed) && blocked == CountStatus(rows[..i], Blocked)
      invariant retained == SaturatingAdd(TotalTraceBytes(rows[..i]), 0) && truncated == CountTruncated(rows[..i])
    {
      assert rows[..i + 1][..i] == rows[..i];
      match rows[i].status {
        case Changed => changed := changed + 1;
        case Blocked => blocked := blocked + 1;
        case Unchanged =>
      }
      retained := SaturatingAdd(retained, RetainedTraceBytes(rows[i].trace));
      truncated := truncated + if rows[i].traceTruncated then 1 else 0;
    }
    assert rows[..|rows|] == rows;
    return RenamePlan(id, generation, rows, changed, blocked, retained, truncated);
  }

  lemma {:induction false} CountedIsThere(rows: seq<PlanRow>, status: NameStatus)
    ensures CountStatus(rows, status) > 0 <==> exists i :: 0 <= i < |rows| && rows[i].status == status
  {
    if rows != [] {
      CountedIsThere(rows[..|rows| - 1], status);
    }
  }

  // ---------------------------------------------------------------- objections

  function RowKey(target: TargetNames, row: PlanRow): Option<(u64, Name)> {
    if target.isText(row.proposedName) then Some((row.parentId, target.Key(row.proposedName))) else None
  }

  /** The target takes the two names for the same. */
  ghost predicate SameName(target: TargetNames, a: Name, b: Name) {
    if target.windows then target.comparisonKey(a) == target.comparisonKey(b) else a == b
  }

  /** Another row of the directory wants a name that the target takes for the same. */
  ghost predicate IsDuplicate(target: TargetNames, rows: seq<PlanRow>, i: nat)
    requires i < |rows|
  {
    && target.isText(rows[i].proposedName)
    && exists j :: 0 <= j < |rows| && j != i && rows[j].parentId == rows[i].parentId && target.isText(rows[j].proposedName)
                   && SameName(target, rows[j].proposedName, rows[i].proposedName)
  }

  /** An entry of the directory that is no selected source has the name. */
  ghost predicate IsOccupied(target: TargetNames, environment: ValidationEnvironment, row: PlanRow) {
    && target.isText(row.proposedName)
    && exists o :: o in environment.occupiedNames && o.parentId == row.parentId && target.isText(o.nativeName)
                   && SameName(target, o.nativeName, row.proposedName)
  }

  /** `after` is `before` with exactly the rows in `hits` blocked for the reason `code`. */
  ghost predicate Marked(before: seq<PlanRow>, after: seq<PlanRow>, hits: set<nat>, code: DiagnosticCode) {
    && |after| == |before|
    && forall i :: 0 <= i < |before| ==> after[i] == if i in hits then before[i].Block(code) else before[i]
  }

  ghost function Hits(rows: seq<PlanRow>, hit: PlanRow -> bool): set<nat> {
    set i | 0 <= i < |rows| && hit(rows[i])
  }

  method MarkWhere(rows: array<PlanRow>, hit: PlanRow -> bool, code: DiagnosticCode)
    modifies rows
    ensures Marked(old(rows[..]), rows[..], Hits(old(rows[..]), hit), code)
  {
    for i := 0 to rows.Length
      invariant forall j :: 0 <= j < i ==> rows[j] == if hit(old(rows[j])) then old(rows[j]).Block(code) else old(rows[j])
      invariant forall j :: i <= j < rows.Length ==> rows[j] == old(rows[j])
    {
      if hit(rows[i]) {
        rows[i] := rows[i].Block(code);
      }
    }
  }

  ghost predicate Grouped(target: TargetNames, rows: seq<PlanRow>, groups: map<(u64, Name), seq<nat>>) {
    && (forall i :: 0 <= i < |rows| && RowKey(target, rows[i]).Some? ==>
          RowKey(target, rows[i]).value in groups && i in groups[RowKey(target, rows[i]).value])
    && (forall k :: k in groups ==> GroupIs(target, rows, groups[k], k))
  }

  ghost predicate GroupIs(target: TargetNames, rows: seq<PlanRow>, group: seq<nat>, key: (u64, Name)) {
    && (forall a, b :: 0 <= a < b < |group| ==> group[a] < group[b])
    && (forall i :: i in group ==> i < |rows| && RowKey(target, rows[i]) == Some(key))
  }

  function WithRow(groups: map<(u64, Name), seq<nat>>, key: (u64, Name), i: nat): map<(u64, Name), seq<nat>> {
    groups[key := (if key in groups then groups[key] else []) + [i]]
  }

  lemma GroupOneMore(target: TargetNames, rows: seq<PlanRow>, row: PlanRow, groups: map<(u64, Name), seq<nat>>)
    requires Grouped(target, rows, groups)
    ensures var key := RowKey(target, row);
            Grouped(target, rows + [row], if key.Some? then WithRow(groups, key.value, |rows|) else groups)
  {
    var longer, key := rows + [row], RowKey(target, row);
    var after := if key.Some? then WithRow(groups, key.value, |rows|) else groups;
    forall i | 0 <= i < |longer| && RowKey(target, longer[i]).Some?
      ensures RowKey(target, longer[i]).value in after && i in after[RowKey(target, longer[i]).value]
    {
      if i < |rows| {
        assert RowKey(target, rows[i]).value in groups;
      }
    }
    forall k | k in after ensures GroupIs(target, longer, after[k], k) {
      if k in groups {
        assert GroupIs(target, rows, groups[k], k);
        forall a | 0 <= a < |groups[k]| ensures groups[k][a] < |rows| {
          assert groups[k][a] in groups[k];
        }
      }
    }
  }

  /** Collects the rows of every key, in order. */
  method GroupByKey(target: TargetNames, rows: array<PlanRow>) returns (groups: map<(u64, Name), seq<nat>>)
    ensures Grouped(target, rows[..], groups)
  {
    groups := map[];
    for i := 0 to rows.Length
      invariant Grouped(target, rows[..i], groups)
    {
      assert rows[..i + 1] == rows[..i] + [rows[i]];
      var key := RowKey(target, rows[i]);
      GroupOneMore(target, rows[..i], rows[i], groups);
      if key.Some? {
        groups := WithRow(groups, key.value, i);
      }
    }
    assert rows[..rows.Length] == rows[..];
  }

  ghost function Duplicates(target: TargetNames, rows: seq<PlanRow>): set<nat> {
    set i | 0 <= i < |rows| && IsDuplicate(target, rows, i)
  }

  /** Groups of more than one are exactly the duplicates. */
  lemma CrowdedGroups(target: TargetNames, rows: seq<PlanRow>, groups: map<(u64, Name), seq<nat>>, i: nat)
    requires Grouped(target, rows, groups) && i < |rows|
    ensures IsDuplicate(target, rows, i) <==>
              RowKey(target, rows[i]).Some? && |groups[RowKey(target, rows[i]).value]| > 1
  {
    if RowKey(target, rows[i]).Some? {
      var key := RowKey(target, rows[i]).value;
      var group := groups[key];
      assert GroupIs(target, rows, group, key) && i in group;
      if |group| > 1 {
        var j := if group[0] == i then group[1] else group[0];
        assert group[0] < group[1] && j in group;
      }
      if IsDuplicate(target, rows, i) {
        var j :| 0 <= j < |rows| && j != i && rows[j].parentId == rows[i].parentId && target.isText(rows[j].proposedName)
                 && SameName(target, rows[j].proposedName, rows[i].proposedName);
        assert RowKey(target, rows[j]) == RowKey(target, rows[i]);
        assert j in group;
        var a :| 0 <= a < |group| && group[a] == i;
        var b :| 0 <= b < |group| && group[b] == j;
      }
    }
  }

  method BlockGroup(rows: array<PlanRow>, group: seq<nat>, code: DiagnosticCode)
    requires forall a, b :: 0 <= a < b < |group| ==> group[a] < group[b]
    requires forall i :: i in group ==> i < rows.Length
    modifies rows
    ensures forall i :: 0 <= i < rows.Length ==> rows[i] == if i in group then old(rows[i]).Block(code) else old(rows[i])
  {
    for a := 0 to |group|
      invariant forall i :: 0 <= i < rows.Length ==> rows[i] == if i in group[..a] then old(rows[i]).Block(code) else old(rows[i])
    {
      assert group[..a + 1] == group[..a] + [group[a]];
      assert group[a] in group && group[a] !in group[..a];
      rows[group[a]] := rows[group[a]].Block(code);
    }
    assert group[..|group|] == group;
  }

  /** Blocks every row that shares its destination with another. */
  method MarkDuplicates(target: TargetNames, rows: array<PlanRow>)
    modifies rows
    ensures Marked(old(rows[..]), rows[..], Duplicates(target, old(rows[..])), DuplicateDestination)
  {
    var groups := GroupByKey(target, rows);
    ghost var before := rows[..];
    var keys := groups.Keys;
    while keys != {}
      invariant keys <= groups.Keys
      invariant forall i :: 0 <= i < rows.Length ==>
                  rows[i] == if IsDone(target, before[i], groups, keys) then before[i].Block(DuplicateDestination) else before[i]
      decreases |keys|
    {
      var key :| key in keys;
      var group := groups[key];
      assert GroupIs(target, before, group, key);
      ghost var was := keys;
      keys := keys - {key};
      forall i | 0 <= i < rows.Length
        ensures IsDone(target, before[i], groups, keys) <==>
                  IsDone(target, before[i], groups, was) || (i in group && |group| > 1)
        ensures i in group ==> !IsDone(target, before[i], groups, was)
      {
      }
      if |group| > 1 {
        BlockGroup(rows, group, DuplicateDestination);
      }
    }
    forall i | 0 <= i < rows.Length ensures IsDone(target, before[i], groups, {}) <==> IsDuplicate(target, before, i) {
      CrowdedGroups(target, before, groups, i);
    }
  }

  /** The row's group is crowded and has been dealt with. */
  ghost predicate IsDone(target: TargetNames, row: PlanRow, groups: map<(u64, Name), seq<nat>>, pending: set<(u64, Name)>) {
    RowKey(target, row).Some? && RowKey(target, row).value in groups
    && |groups[RowKey(target, row).value]| > 1 && RowKey(target, row).value !in pending
  }

  // ---------------------------------------------------------------- screening

  /** What speaks against a row, in the order in which it is looked for. */
  function Reason(pass: nat): DiagnosticCode {
    if pass == 0 then StaleSource
    else if pass == 1 then AncestorDescendantConflict
    else if pass == 2 then ParentUnavailable
    else if pass == 3 then DuplicateDestination
    else OccupiedDestination
  }

  const PASSES := 5

  ghost predicate Objects(pass: nat, target: TargetNames, environment: ValidationEnvironment, rows: seq<PlanRow>, i: nat)
    requires i < |rows|
  {
    if pass == 0 then rows[i].sourceId in environment.staleSources
    else if pass == 1 then rows[i].sourceId in environment.ancestorConflicts
    else if pass == 2 then rows[i].parentId in environment.unavailableParents
    else if pass == 3 then IsDuplicate(target, rows, i)
    else IsOccupied(target, environment, rows[i])
  }

  /** Something speaks against the row. */
  ghost predicate IsObjectionable(target: TargetNames, environment: ValidationEnvironment, rows: seq<PlanRow>, i: nat)
    requires i < |rows|
  {
    exists pass :: 0 <= pass < PASSES && Objects(pass, target, environment, rows, i)
  }

  /** The built row `i` after some passes: blocked for each reason that applies to what was built. */
  ghost function Judged(target: TargetNames, environment: ValidationEnvironment, built: seq<PlanRow>, i: nat, passes: nat): PlanRow
    requires i < |built|
  {
    if passes == 0 then built[i]
    else
      var before := Judged(target, environment, built, i, passes - 1);
      if Objects(passes - 1, target, environment, built, i) then before.Block(Reason(passes - 1)) else before
  }

  ghost predicate Screened(target: TargetNames, environment: ValidationEnvironment, built: seq<PlanRow>, rows: seq<PlanRow>, passes: nat) {
    && |rows| == |built|
    && forall i :: 0 <= i < |built| ==> rows[i] == Judged(target, environment, built, i, passes)
  }

  ghost predicate SameProposal(a: PlanRow, b: PlanRow) {
    b == a.(status := b.status, diagnostics := b.diagnostics)
  }

  ghost predicate Lists(row: PlanRow, code: DiagnosticCode) {
    exists d :: d in row.diagnostics && d.code == code
  }

  /** A screened row proposes what was built; it is blocked exactly if it was before or a reason applies,
      and it lists exactly the reasons that it listed before or that apply. */
  lemma {:induction false} JudgedMeans(target: TargetNames, environment: ValidationEnvironment, built: seq<PlanRow>, i: nat, passes: nat)
    requires i < |built| && passes <= PASSES
    ensures var row := Judged(target, environment, built, i, passes);
            && SameProposal(built[i], row)
            && (row.status == if exists p :: 0 <= p < passes && Objects(p, target, environment, built, i) then Blocked else built[i].status)
            && (forall p :: 0 <= p < PASSES ==>
                  (Lists(row, Reason(p)) <==> Lists(built[i], Reason(p)) || (p < passes && Objects(p, target, environment, built, i))))
  {
    if passes > 0 {
      JudgedMeans(target, environment, built, i, passes - 1);
      var before := Judged(target, environment, built, i, passes - 1);
      forall code | true ensures Lists(before.Block(Reason(passes - 1)), code) <==> Lists(before, code) || code == Reason(passes - 1) {
        BlockingLists(before, Reason(passes - 1), code);
      }
    }
  }

  /** Where a reason stands in the order in which they are looked for. */
  ghost function Turn(code: DiagnosticCode): nat {
    match code
    case StaleSource => 0
    case AncestorDescendantConflict => 1
    case ParentUnavailable => 2
    case DuplicateDestination => 3
    case OccupiedDestination => 4
    case _ => PASSES
  }

  /** What `after` lists beyond `before` blocks, was not listed, and comes in the order of the passes. */
  ghost predicate AddsInOrder(before: PlanRow, after: PlanRow, passes: nat) {
    && before.diagnostics <= after.diagnostics
    && forall k :: |before.diagnostics| <= k < |after.diagnostics| ==>
         var added := after.diagnostics[k];
         && added.blocked && Turn(added.code) < passes && !Lists(before, added.code)
         && forall j :: |before.diagnostics| <= j < k ==> Turn(after.diagnostics[j].code) < Turn(added.code)
  }

  /** A row lists each reason once, in the order in which they are looked for, behind what it listed when built. */
  lemma {:induction false} JudgedInOrder(target: TargetNames, environment: ValidationEnvironment, built: seq<PlanRow>, i: nat, passes: nat)
    requires i < |built| && passes <= PASSES
    ensures AddsInOrder(built[i], Judged(target, environment, built, i, passes), passes)
  {
    if passes > 0 {
      JudgedInOrder(target, environment, built, i, passes - 1);
      OneMoreInOrder(built[i], Judged(target, environment, built, i, passes - 1), passes - 1);
    }
  }

  lemma OneMoreInOrder(before: PlanRow, row: PlanRow, pass: nat)
    requires AddsInOrder(before, row, pass) && pass < PASSES
    ensures AddsInOrder(before, row, pass + 1) && AddsInOrder(before, row.Block(Reason(pass)), pass + 1)
  {
    var reason := Reason(pass);
    BlockingAdds(row, reason);
    if !Lists(row, reason) {
      assert !Lists(before, reason) by {
        assert forall d :: d in before.diagnostics ==> d in row.diagnostics;
      }
      AppendingIsInOrder(before, row, row.Block(reason), Diagnostic(reason, true), pass);
    }
  }

  lemma AppendingIsInOrder(before: PlanRow, row: PlanRow, after: PlanRow, added: Diagnostic, pass: nat)
    requires AddsInOrder(before, row, pass) && after.diagnostics == row.diagnostics + [added]
    requires added.blocked && Turn(added.code) == pass && !Lists(before, added.code)
    ensures AddsInOrder(before, after, pass + 1)
  {
  }

  lemma BlockingAdds(row: PlanRow, reason: DiagnosticCode)
    ensures row.Block(reason).diagnostics
            == if Lists(row, reason) then row.diagnostics else row.diagnostics + [Diagnostic(reason, true)]
  {
  }

  lemma BlockingLists(row: PlanRow, reason: DiagnosticCode, code: DiagnosticCode)
    ensures Lists(row.Block(reason), code) <==> Lists(row, code) || code == reason
  {
    var after := row.Block(reason);
    assert Diagnostic(reason, true) in after.diagnostics || Lists(row, reason);
    assert forall d :: d in row.diagnostics ==> d in after.diagnostics;
  }

  /** A pass that marks by what the rows propose goes one pass further. */
  lemma PassGoesOn(target: TargetNames, environment: ValidationEnvironment, built: seq<PlanRow>, was: seq<PlanRow>, now: seq<PlanRow>,
                   hits: set<nat>, pass: nat)
    requires Screened(target, environment, built, was, pass) && Marked(was, now, hits, Reason(pass)) && pass < PASSES
    requires forall i :: 0 <= i < |was| ==> (i in hits <==> Objects(pass, target, environment, was, i))
    ensures Screened(target, environment, built, now, pass + 1)
  {
    forall i | 0 <= i < |built| ensures Objects(pass, target, environment, was, i) <==> Objects(pass, target, environment, built, i) {
      SameObjections(target, environment, built, was, pass, i);
    }
  }

  lemma SameObjections(target: TargetNames, environment: ValidationEnvironment, built: seq<PlanRow>, was: seq<PlanRow>, pass: nat, i: nat)
    requires Screened(target, environment, built, was, pass) && i < |built| && pass < PASSES
    ensures Objects(pass, target, environment, was, i) <==> Objects(pass, target, environment, built, i)
  {
    forall j | 0 <= j < |built| ensures SameProposal(built[j], was[j]) {
      JudgedMeans(target, environment, built, j, pass);
    }
    assert forall j :: 0 <= j < |built| ==> RowKey(target, was[j]) == RowKey(target, built[j]);
  }

  function OccupiedKeys(target: TargetNames, environment: ValidationEnvironment): set<(u64, Name)> {
    set o | o in environment.occupiedNames && target.isText(o.nativeName) :: (o.parentId, target.Key(o.nativeName))
  }

  lemma OccupiedByKey(target: TargetNames, environment: ValidationEnvironment)
    ensures forall row: PlanRow {:trigger RowKey(target, row)} ::
              RowKey(target, row).Some? && RowKey(target, row).value in OccupiedKeys(target, environment)
              <==> IsOccupied(target, environment, row)
  {
    forall row: PlanRow
      ensures RowKey(target, row).Some? && RowKey(target, row).value in OccupiedKeys(target, environment)
              <==> IsOccupied(target, environment, row)
    {
      if IsOccupied(target, environment, row) {
        var o :| o in environment.occupiedNames && o.parentId == row.parentId && target.isText(o.nativeName)
                 && SameName(target, o.nativeName, row.proposedName);
        assert (o.parentId, target.Key(o.nativeName)) == RowKey(target, row).value;
      }
    }
  }

  /** Polls for cancellation between the passes. */
  class Cancellation {
    const shouldCancel: nat -> bool
    var polls: nat

    constructor (shouldCancel: nat -> bool)
      ensures this.shouldCancel == shouldCancel && polls == 0
    {
      this.shouldCancel, polls := shouldCancel, 0;
    }

    ghost predicate Never() {
      forall i :: !shouldCancel(i)
    }

    method Poll() returns (cancelled: bool)
      modifies this
      ensures cancelled == shouldCancel(old(polls)) && polls == old(polls) + 1
    {
      cancelled := shouldCancel(polls);
      polls := polls + 1;
    }
  }

  /** The passes that look at where the sources are. */
  method ScreenSources(target: TargetNames, environment: ValidationEnvironment, rows: array<PlanRow>, cancellation: Cancellation)
    returns (cancelled: bool)
    modifies rows, cancellation
    ensures !cancelled ==> Screened(target, environment, old(rows[..]), rows[..], 3)
    ensures cancellation.Never() ==> !cancelled
  {
    ghost var built := rows[..];
    ghost var was := built;
    var isStale := (row: PlanRow) => row.sourceId in environment.staleSources;
    MarkWhere(rows, isStale, StaleSource);
    PassGoesOn(target, environment, built, was, rows[..], Hits(was, isStale), 0);
    cancelled := cancellation.Poll();
    if cancelled {
      return;
    }
    was := rows[..];
    var isNested := (row: PlanRow) => row.sourceId in environment.ancestorConflicts;
    MarkWhere(rows, isNested, AncestorDescendantConflict);
    PassGoesOn(target, environment, built, was, rows[..], Hits(was, isNested), 1);
    cancelled := cancellation.Poll();
    if cancelled {
      return;
    }
    was := rows[..];
    var isOrphaned := (row: PlanRow) => row.parentId in environment.unavailableParents;
    MarkWhere(rows, isOrphaned, ParentUnavailable);
    PassGoesOn(target, environment, built, was, rows[..], Hits(was, isOrphaned), 2);
    cancelled := cancellation.Poll();
  }

  /** All five passes: every row is blocked for exactly the reasons that apply to it. */
  method Screen(target: TargetNames, environment: ValidationEnvironment, rows: array<PlanRow>, cancellation: Cancellation)
    returns (cancelled: bool)
    modifies rows, cancellation
    ensures !cancelled ==> Screened(target, environment, old(rows[..]), rows[..], PASSES)
    ensures cancellation.Never() ==> !cancelled
  {
    ghost var built := rows[..];
    cancelled := ScreenSources(target, environment, rows, cancellation);
    if cancelled {
      return;
    }
    ghost var was := rows[..];
    MarkDuplicates(target, rows);
    PassGoesOn(target, environment, built, was, rows[..], Duplicates(target, was), 3);
    cancelled := cancellation.Poll();
    if cancelled {
      return;
    }
    was := rows[..];
    var occupied := OccupiedKeys(target, environment);
    OccupiedByKey(target, environment);
    var isOccupied := (row: PlanRow) => RowKey(target, row).Some? && RowKey(target, row).value in occupied;
    MarkWhere(rows, isOccupied, OccupiedDestination);
    PassGoesOn(target, environment, built, was, rows[..], Hits(was, isOccupied), 4);
    cancelled := cancellation.Poll();
  }

  // ---------------------------------------------------------------- the whole plan

  ghost predicate ValidOverrides(sources: seq<SourceSnapshot>, overrides: seq<NameOverride>) {
    && |overrides| <= MAX_OVERRIDES
    && (forall i, j :: 0 <= i < j < |overrides| ==> overrides[i].sourceId != overrides[j].sourceId)
    && forall o :: o in overrides ==>
         o.sourceId > 0 && (exists s :: s in sources && s.id == o.sourceId) && |o.proposedName| <= MAX_OVERRIDE_TEXT_BYTES
  }

  predicate IsValidOverride(sources: seq<SourceSnapshot>, o: NameOverride) {
    o.sourceId != 0 && (exists s :: s in sources && s.id == o.sourceId) && |o.proposedName| <= MAX_OVERRIDE_TEXT_BYTES
  }

  method ValidateOverrides(sources: seq<SourceSnapshot>, overrides: seq<NameOverride>) returns (r: Option<map<u64, Name>>)
    ensures r.Some? <==> ValidOverrides(sources, overrides)
    ensures r.Some? ==> Validated(sources, overrides, r.value)
  {
    if |overrides| > MAX_OVERRIDES {
      return None;
    }
    var validated: map<u64, Name> := map[];
    for i := 0 to |overrides|
      invariant Validated(sources, overrides[..i], validated)
    {
      var o := overrides[i];
      assert overrides[..i + 1] == overrides[..i] + [o];
      OneMoreOverride(sources, overrides[..i], o, validated);
      if !IsValidOverride(sources, o) || o.sourceId in validated {
        FirstOffender(sources, overrides, i, validated);
        return None;
      }
      validated := validated[o.sourceId := o.proposedName];
    }
    assert overrides[..|overrides|] == overrides;
    return Some(validated);
  }

  ghost predicate Validated(sources: seq<SourceSnapshot>, overrides: seq<NameOverride>, validated: map<u64, Name>) {
    && (forall i, j :: 0 <= i < j < |overrides| ==> overrides[i].sourceId != overrides[j].sourceId)
    && (forall o :: o in overrides ==> IsValidOverride(sources, o) && o.sourceId in validated && validated[o.sourceId] == o.proposedName)
    && (forall id :: id in validated ==> NameOverride(id, validated[id]) in overrides)
  }

  lemma OneMoreOverride(sources: seq<SourceSnapshot>, done: seq<NameOverride>, o: NameOverride, validated: map<u64, Name>)
    requires Validated(sources, done, validated)
    ensures IsValidOverride(sources, o) && o.sourceId !in validated ==> Validated(sources, done + [o], validated[o.sourceId := o.proposedName])
  {
    if o.sourceId !in validated {
      forall i | 0 <= i < |done| ensures done[i].sourceId != o.sourceId {
        assert done[i] in done;
      }
    }
  }

  lemma FirstOffender(sources: seq<SourceSnapshot>, overrides: seq<NameOverride>, i: nat, validated: map<u64, Name>)
    requires i < |overrides| && Validated(sources, overrides[..i], validated)
    requires !IsValidOverride(sources, overrides[i]) || overrides[i].sourceId in validated
    ensures !ValidOverrides(sources, overrides)
  {
    assert overrides[i] in overrides;
    if overrides[i].sourceId in validated {
      var earlier := NameOverride(overrides[i].sourceId, validated[overrides[i].sourceId]);
      var j :| 0 <= j < i && overrides[..i][j] == earlier;
      assert overrides[j].sourceId == overrides[i].sourceId;
    }
  }

  /** Sequence values for every rule that allocates any. */
  ghost predicate AllAllocated(sources: seq<SourceSnapshot>, rules: RulePipeline, values: SequenceValues, count: nat) {
    && |values| == count
    && forall r :: 0 <= r < count ==> RuleAllocated(sources, rules.allocation(r), values[r])
  }

  ghost predicate RuleAllocated(sources: seq<SourceSnapshot>, allocation: Option<SequenceAllocation>, values: Option<seq<Option<u64>>>) {
    forall x {:trigger UnsealedAt(RuleSeal, values, x)} :: UnsealedAt(RuleSeal, values, x) ==> HasAllocated(sources, allocation, values)
  }

  ghost predicate HasAllocated(sources: seq<SourceSnapshot>, allocation: Option<SequenceAllocation>, values: Option<seq<Option<u64>>>) {
    && values.Some? == allocation.Some?
    && (values.Some? ==>
          && |values.value| == |sources|
          && var indices := OrderedSourceIndices(sources, allocation.value.order);
             IsPermutation(indices, |sources|)
             && forall k :: 0 <= k < |sources| ==> Allocated(Arranged(sources, indices), allocation.value, k, values.value[indices[k]]))
  }

  ghost predicate IsOrder(sources: seq<SourceSnapshot>, order: SequenceOrder, indices: seq<nat>) {
    forall x {:trigger UnsealedAt(OrderSeal, indices, x)} :: UnsealedAt(OrderSeal, indices, x) ==>
      indices == OrderedSourceIndices(sources, order)
  }

  ghost predicate IsCached(sources: seq<SourceSnapshot>, order: SequenceOrder, cached: Option<seq<nat>>) {
    cached.Some? ==> IsOrder(sources, order, cached.value)
  }

  method OrderOnce(sources: seq<SourceSnapshot>, order: SequenceOrder, cached: Option<seq<nat>>) returns (indices: seq<nat>)
    requires IsCached(sources, order, cached)
    ensures IsOrder(sources, order, indices)
  {
    if cached.Some? {
      return cached.value;
    }
    return OrderedSourceIndices(sources, order);
  }

  method AllocateAll(sources: seq<SourceSnapshot>, rules: RulePipeline, cancellation: Cancellation)
    returns (r: Option<SequenceValues>)
    requires |sources| <= USIZE_MAX
    modifies cancellation
    ensures r.Some? ==> AllAllocated(sources, rules, r.value, rules.count)
    ensures cancellation.Never() ==> r.Some?
  {
    var sourceOrder: Option<seq<nat>> := None;
    var nameOrder: Option<seq<nat>> := None;
    var values: SequenceValues := [];
    for i := 0 to rules.count
      invariant AllAllocated(sources, rules, values, i)
      invariant IsCached(sources, BySource, sourceOrder) && IsCached(sources, ByNameAscending, nameOrder)
    {
      var cancelled := cancellation.Poll();
      if cancelled {
        return None;
      }
      var column: Option<seq<Option<u64>>> := None;
      var allocation := rules.allocation(i);
      NothingAllocated(sources);
      if allocation.Some? {
        var indices: seq<nat>;
        match allocation.value.order {
          case BySource =>
            indices := OrderOnce(sources, BySource, sourceOrder);
            sourceOrder := Some(indices);
          case ByNameAscending =>
            indices := OrderOnce(sources, ByNameAscending, nameOrder);
            nameOrder := Some(indices);
        }
        column := AllocateRule(sources, indices, allocation.value);
      }
      values := values + [column];
    }
    return Some(values);
  }

  lemma NothingAllocated(sources: seq<SourceSnapshot>)
    ensures RuleAllocated(sources, None, None)
  {
  }

  method AllocateRule(sources: seq<SourceSnapshot>, indices: seq<nat>, allocation: SequenceAllocation)
    returns (column: Option<seq<Option<u64>>>)
    requires |sources| <= USIZE_MAX && IsOrder(sources, allocation.order, indices)
    ensures RuleAllocated(sources, Some(allocation), column)
  {
    assert UnsealedAt(OrderSeal, indices, 0);
    IndicesAreComplete(sources, allocation.order);
    var values := AllocateSequence(sources, indices, allocation);
    column := Some(values);
  }

  /** A rule that allocates is given the value that is allocated to the source, any other rule none. */
  lemma ValuesReachTheRules(sources: seq<SourceSnapshot>, rules: RulePipeline, values: SequenceValues, rule: nat, i: nat)
    requires AllAllocated(sources, rules, values, rules.count) && rule < rules.count && i < |sources|
    ensures match rules.allocation(rule)
            case None => SequenceValue(values, rule, i).None?
            case Some(allocation) =>
              var indices := OrderedSourceIndices(sources, allocation.order);
              IsPermutation(indices, |sources|) &&
              exists k :: 0 <= k < |sources| && indices[k] == i
                          && Allocated(Arranged(sources, indices), allocation, k, SequenceValue(values, rule, i))
  {
    assert UnsealedAt(RuleSeal, values[rule], 0);
    assert RuleAllocated(sources, rules.allocation(rule), values[rule]);
    if rules.allocation(rule).Some? {
      var allocation := rules.allocation(rule).value;
      var indices := OrderedSourceIndices(sources, allocation.order);
      assert i in indices;
      var k :| 0 <= k < |indices| && indices[k] == i;
      assert Allocated(Arranged(sources, indices), allocation, k, values[rule].value[indices[k]]);
    }
  }

  ghost predicate RowsPreview(rows: seq<PlanRow>, sources: seq<SourceSnapshot>, rules: RulePipeline, values: SequenceValues,
                              overrides: map<u64, Name>, target: TargetNames)
  {
    && |rows| <= |sources|
    && forall i :: 0 <= i < |rows| ==>
         Previews(rows[i], sources[i], Rewritten(rules, target.display, sources[i], values, i, rules.count),
                  OverrideFor(overrides, sources[i].id), target)
  }

  lemma OneMorePreview(rows: seq<PlanRow>, row: PlanRow, sources: seq<SourceSnapshot>, rules: RulePipeline, values: SequenceValues,
                       overrides: map<u64, Name>, target: TargetNames)
    requires RowsPreview(rows, sources, rules, values, overrides, target) && |rows| < |sources|
    requires Previews(row, sources[|rows|], Rewritten(rules, target.display, sources[|rows|], values, |rows|, rules.count),
                      OverrideFor(overrides, sources[|rows|].id), target)
    ensures RowsPreview(rows + [row], sources, rules, values, overrides, target)
  {
  }

  function OverrideFor(overrides: map<u64, Name>, id: u64): Option<Name> {
    if id in overrides then Some(overrides[id]) else None
  }

  /** The first trace that is cut short would have used up the limit together with those before it. */
  ghost predicate FirstCutIsDue(rows: seq<PlanRow>, sources: seq<SourceSnapshot>, rules: RulePipeline, values: SequenceValues, target: TargetNames) {
    && |rows| <= |sources|
    && forall k :: 0 <= k < |rows| && rows[k].traceTruncated && NoneCut(rows[..k]) ==> IsDue(rows, k, sources, rules, values, target)
  }

  ghost predicate IsDue(rows: seq<PlanRow>, k: nat, sources: seq<SourceSnapshot>, rules: RulePipeline, values: SequenceValues, target: TargetNames)
    requires k < |rows| <= |sources|
  {
    TotalTraceBytes(rows[..k]) + RetainedTraceBytes(Rewritten(rules, target.display, sources[k], values, k, rules.count).steps)
      >= MAX_PLAN_TRACE_BYTES
  }

  ghost predicate Budgeted(rows: seq<PlanRow>, remaining: nat) {
    && TotalTraceBytes(rows) + remaining <= MAX_PLAN_TRACE_BYTES
    && (NoneCut(rows) ==> TotalTraceBytes(rows) + remaining == MAX_PLAN_TRACE_BYTES)
  }

  ghost predicate NoneCut(rows: seq<PlanRow>) {
    forall k :: 0 <= k < |rows| ==> !rows[k].traceTruncated
  }

  lemma OneMoreRow(rows: seq<PlanRow>, row: PlanRow, sources: seq<SourceSnapshot>, rules: RulePipeline, values: SequenceValues,
                   target: TargetNames, full: Rewriting, before: nat, after: nat)
    requires FirstCutIsDue(rows, sources, rules, values, target) && |rows| < |sources|
    requires full == Rewritten(rules, target.display, sources[|rows|], values, |rows|, rules.count)
    requires Traced(row.trace, row.traceTruncated, full, before, after) && Budgeted(rows, before)
    ensures FirstCutIsDue(rows + [row], sources, rules, values, target) && Budgeted(rows + [row], after)
  {
    var longer := rows + [row];
    assert longer[..|rows|] == rows;
    assert NoneCut(longer) ==> NoneCut(rows) && !longer[|rows|].traceTruncated by {
      assert forall j :: 0 <= j < |rows| ==> longer[j] == rows[j];
    }
    CutIsDue(row.trace, full.steps, before);
    forall k | 0 <= k < |longer| && longer[k].traceTruncated && NoneCut(longer[..k])
      ensures IsDue(longer, k, sources, rules, values, target)
    {
      assert longer[..k] == rows[..k];
      assert rows[..|rows|] == rows;
      if k < |rows| {
        assert IsDue(rows, k, sources, rules, values, target);
      }
    }
  }

  /** Longer traces retain at least as many bytes. */
  lemma {:induction false} CutIsDue(trace: seq<TraceStep>, steps: seq<TraceStep>, start: nat)
    requires trace <= steps
    ensures RetainedTraceBytes(trace) <= RetainedTraceBytes(steps)
    ensures IsCutShort(trace, steps, start) ==> RetainedTraceBytes(steps) >= start
    decreases |steps|
  {
    if |trace| < |steps| {
      var front := steps[..|steps| - 1];
      CutIsDue(trace, front, start);
      assert RetainedTraceBytes(front) <= RetainedTraceBytes(steps);
      if |trace| < |front| {
        assert front[..|trace| + 1] == steps[..|trace| + 1];
      } else {
        assert steps[..|trace| + 1] == steps;
      }
    } else {
      assert trace == steps;
    }
  }

  /** One row for each source, all their traces within one budget. */
  method BuildRows(sources: seq<SourceSnapshot>, rules: RulePipeline, values: SequenceValues, overrides: map<u64, Name>,
                   target: TargetNames, cancellation: Cancellation)
    returns (r: Option<seq<PlanRow>>)
    modifies cancellation
    ensures r.Some? ==> |r.value| == |sources| && RowsPreview(r.value, sources, rules, values, overrides, target)
    ensures r.Some? ==> TotalTraceBytes(r.value) <= MAX_PLAN_TRACE_BYTES
    ensures r.Some? ==> FirstCutIsDue(r.value, sources, rules, values, target)
    ensures cancellation.Never() ==> r.Some?
  {
    var budget := new TraceBudget();
    var rows: seq<PlanRow> := [];
    for i := 0 to |sources|
      invariant |rows| == i && RowsPreview(rows, sources, rules, values, overrides, target)
      invariant budget.Valid() && fresh(budget)
      invariant Budgeted(rows, budget.remainingBytes)
      invariant FirstCutIsDue(rows, sources, rules, values, target)
    {
      if i % 64 == 0 {
        var cancelled := cancellation.Poll();
        if cancelled {
          return None;
        }
      }
      ghost var before := budget.remainingBytes;
      var row := BuildRow(i, sources[i], rules, values, OverrideFor(overrides, sources[i].id), target, budget);
      OneMorePreview(rows, row, sources, rules, values, overrides, target);
      OneMoreRow(rows, row, sources, rules, values, target,
                 Rewritten(rules, target.display, sources[i], values, i, rules.count), before, budget.remainingBytes);
      rows := rows + [row];
    }
    return Some(rows);
  }

  /** A plan whose rules cannot be used blocks every row. */
  function InvalidRuleRows(sources: seq<SourceSnapshot>): (r: seq<PlanRow>)
    ensures |r| == |sources|
    ensures forall i :: 0 <= i < |r| ==>
              && r[i].sourceId == sources[i].id && r[i].proposedName == r[i].originalName == sources[i].nativeName
              && r[i].status.Blocked? && Lists(r[i], InvalidRule) && r[i].trace == []
  {
    seq(|sources|, i requires 0 <= i < |sources| =>
      NewRow(sources[i], sources[i].nativeName, [], [Diagnostic(InvalidRule, true)], false, false))
  }

  /** What the plan of valid overrides holds. */
  ghost predicate PlannedFrom(plan: RenamePlan, built: seq<PlanRow>, sources: seq<SourceSnapshot>, rules: RulePipeline,
                              overrides: seq<NameOverride>, target: TargetNames, environment: ValidationEnvironment)
  {
    && |built| == |sources|
    && (exists values, validated ::
          && AllAllocated(sources, rules, values, rules.count) && Validated(sources, overrides, validated)
          && RowsPreview(built, sources, rules, values, validated, target)
          && FirstCutIsDue(built, sources, rules, values, target))
    && Screened(target, environment, built, plan.rows, PASSES)
  }

  /** An override reaches its row, unless a rule fails there, and no other name does. */
  lemma OverridesReachTheRows(plan: RenamePlan, built: seq<PlanRow>, sources: seq<SourceSnapshot>, rules: RulePipeline,
                              overrides: seq<NameOverride>, target: TargetNames, environment: ValidationEnvironment, i: nat)
    requires PlannedFrom(plan, built, sources, rules, overrides, target, environment) && i < |sources|
    ensures |plan.rows| == |sources| && plan.rows[i].sourceId == sources[i].id
    ensures exists values :: AllAllocated(sources, rules, values, rules.count) &&
              var row, full := plan.rows[i], Rewritten(rules, target.display, sources[i], values, i, rules.count);
              && (row.overrideApplied <==> full.error.None? && exists o :: o in overrides && o.sourceId == sources[i].id)
              && if row.overrideApplied then NameOverride(sources[i].id, row.proposedName) in overrides else row.proposedName == full.name
  {
    var values, validated :|
      && AllAllocated(sources, rules, values, rules.count) && Validated(sources, overrides, validated)
      && RowsPreview(built, sources, rules, values, validated, target)
      && FirstCutIsDue(built, sources, rules, values, target);
    JudgedMeans(target, environment, built, i, PASSES);
    assert Previews(built[i], sources[i], Rewritten(rules, target.display, sources[i], values, i, rules.count),
                    OverrideFor(validated, sources[i].id), target);
    assert (exists o :: o in overrides && o.sourceId == sources[i].id) <==> sources[i].id in validated;
  }

  method BuildPlan(planId: u64, generation: u64, sources: seq<SourceSnapshot>, rules: RulePipeline,
                   overrides: seq<NameOverride>, target: TargetNames, environment: ValidationEnvironment, shouldCancel: nat -> bool)
    returns (r: Option<RenamePlan>, ghost built: seq<PlanRow>)
    requires |sources| <= USIZE_MAX
    ensures (forall i :: !shouldCancel(i)) ==> r.Some?
    ensures r.Some? ==> r.value.id == planId && r.value.generation == generation
    ensures r.Some? ==> r.value.changedCount == CountStatus(r.value.rows, Changed) && r.value.blockedCount == CountStatus(r.value.rows, Blocked)
    ensures r.Some? ==> TotalTraceBytes(r.value.rows) == r.value.retainedTraceBytes <= MAX_PLAN_TRACE_BYTES
    ensures r.Some? && ValidOverrides(sources, overrides) ==> PlannedFrom(r.value, built, sources, rules, overrides, target, environment)
    ensures r.Some? && !ValidOverrides(sources, overrides) ==> !r.value.CanApply() && r.value.rows == InvalidRuleRows(sources)
  {
    built := [];
    var cancellation := new Cancellation(shouldCancel);
    var cancelled := cancellation.Poll();
    if cancelled {
      return None, [];
    }
    var validated := ValidateOverrides(sources, overrides);
    if validated.None? {
      var plan := NewPlan(planId, generation, InvalidRuleRows(sources));
      NothingTraced(plan.rows);
      CountedIsThere(plan.rows, Changed);
      return Some(plan), [];
    }
    var values := AllocateAll(sources, rules, cancellation);
    if values.None? {
      return None, [];
    }
    var fullRows := BuildRows(sources, rules, values.value, validated.value, target, cancellation);
    if fullRows.None? {
      return None, [];
    }
    built := fullRows.value;
    cancelled := cancellation.Poll();
    if cancelled {
      return None, [];
    }
    var rows := new PlanRow[|fullRows.value|](i requires 0 <= i < |fullRows.value| => fullRows.value[i]);
    assert rows[..] == built;
    cancelled := Screen(target, environment, rows, cancellation);
    if cancelled {
      return None, [];
    }
    SameTraces(target, environment, built, rows[..]);
    var plan := NewPlan(planId, generation, rows[..]);
    return Some(plan), built;
  }

  lemma {:induction false} NothingTraced(rows: seq<PlanRow>)
    requires forall i :: 0 <= i < |rows| ==> rows[i].trace == []
    ensures TotalTraceBytes(rows) == 0
  {
    if rows != [] {
      NothingTraced(rows[..|rows| - 1]);
    }
  }

  lemma SameTraces(target: TargetNames, environment: ValidationEnvironment, built: seq<PlanRow>, rows: seq<PlanRow>)
    requires Screened(target, environment, built, rows, PASSES)
    ensures TotalTraceBytes(rows) == TotalTraceBytes(built)
  {
    forall i | 0 <= i < |built| ensures rows[i].trace == built[i].trace {
      JudgedMeans(target, environment, built, i, PASSES);
    }
    EqualTraces(built, rows);
  }

  lemma {:induction false} EqualTraces(built: seq<PlanRow>, rows: seq<PlanRow>)
    requires |built| == |rows| && forall i :: 0 <= i < |built| ==> rows[i].trace == built[i].trace
    ensures TotalTraceBytes(rows) == TotalTraceBytes(built)
  {
    if built != [] {
      EqualTraces(built[..|built| - 1], rows[..|rows| - 1]);
    }
  }

  // ---------------------------------------------------------------- what applicability means

  /** The proposed names of an applicable plan: no two alike in one directory, none taken, and no row that
      the disk speaks against. */
  ghost predicate SoundRows(rows: seq<PlanRow>, sources: seq<SourceSnapshot>, target: TargetNames, environment: ValidationEnvironment) {
    && |rows| == |sources|
    && (forall i :: 0 <= i < |rows| ==> SoundRow(rows[i], sources[i], target, environment))
    && (forall i, j :: 0 <= i < j < |rows| && rows[i].parentId == rows[j].parentId ==>
          !SameName(target, rows[i].proposedName, rows[j].proposedName))
  }

  ghost predicate SoundRow(row: PlanRow, source: SourceSnapshot, target: TargetNames, environment: ValidationEnvironment) {
    && row.sourceId == source.id && row.parentId == source.parentId && row.originalName == source.nativeName
    && row.proposedName != [] && target.isText(row.proposedName)
    && (target.windows ==> forall d :: d in target.validate(row.proposedName) ==> !d.blocked)
    && (row.status.Changed? <==> row.proposedName != row.originalName) && !row.status.Blocked?
    && row.sourceId !in environment.staleSources && row.sourceId !in environment.ancestorConflicts
    && row.parentId !in environment.unavailableParents && !IsOccupied(target, environment, row)
  }

  ghost predicate Justified(built: seq<PlanRow>, rows: seq<PlanRow>, sources: seq<SourceSnapshot>,
                            target: TargetNames, environment: ValidationEnvironment)
  {
    && |built| == |rows| == |sources|
    && forall i :: 0 <= i < |rows| ==> IsJustified(built, i, rows[i], sources[i], target, environment)
  }

  ghost predicate IsJustified(built: seq<PlanRow>, i: nat, row: PlanRow, source: SourceSnapshot, target: TargetNames, environment: ValidationEnvironment)
    requires i < |built|
  {
    && SameProposal(built[i], row)
    && (row.status.Blocked? <==> built[i].status.Blocked? || IsObjectionable(target, environment, built, i))
    && (!row.status.Blocked? ==> SoundRow(row, source, target, environment))
  }

  lemma RowsAreJudged(built: seq<PlanRow>, rows: seq<PlanRow>, sources: seq<SourceSnapshot>, rules: RulePipeline,
                      values: SequenceValues, overrides: map<u64, Name>, target: TargetNames, environment: ValidationEnvironment)
    requires RowsPreview(built, sources, rules, values, overrides, target) && |built| == |sources|
    requires Screened(target, environment, built, rows, PASSES)
    ensures Justified(built, rows, sources, target, environment)
  {
    forall i | 0 <= i < |built| ensures IsJustified(built, i, rows[i], sources[i], target, environment) {
      JudgedMeans(target, environment, built, i, PASSES);
      assert Previews(built[i], sources[i], Rewritten(rules, target.display, sources[i], values, i, rules.count),
                      OverrideFor(overrides, sources[i].id), target);
      assert SameProposal(built[i], rows[i]) && RowKey(target, rows[i]) == RowKey(target, built[i]);
      if !IsObjectionable(target, environment, built, i) {
        assert !Objects(0, target, environment, built, i) && !Objects(1, target, environment, built, i)
               && !Objects(2, target, environment, built, i) && !Objects(4, target, environment, built, i);
      }
    }
  }

  lemma NothingBlocked(plan: RenamePlan)
    requires plan.changedCount == CountStatus(plan.rows, Changed) && plan.blockedCount == CountStatus(plan.rows, Blocked)
    ensures plan.CanApply() <==>
              && (exists i :: 0 <= i < |plan.rows| && plan.rows[i].status.Changed?)
              && (forall i :: 0 <= i < |plan.rows| ==> !plan.rows[i].status.Blocked?)
  {
    CountedIsThere(plan.rows, Changed);
    CountedIsThere(plan.rows, Blocked);
  }

  lemma JustifiedRowsAreSound(built: seq<PlanRow>, rows: seq<PlanRow>, sources: seq<SourceSnapshot>,
                              target: TargetNames, environment: ValidationEnvironment)
    requires Justified(built, rows, sources, target, environment)
    requires forall i :: 0 <= i < |rows| ==> !rows[i].status.Blocked?
    ensures SoundRows(rows, sources, target, environment)
  {
    forall i, j | 0 <= i < j < |rows| && rows[i].parentId == rows[j].parentId
      ensures !SameName(target, rows[i].proposedName, rows[j].proposedName)
    {
      assert IsJustified(built, i, rows[i], sources[i], target, environment);
      assert IsJustified(built, j, rows[j], sources[j], target, environment);
      assert !Objects(3, target, environment, built, i);
      assert SoundRow(rows[j], sources[j], target, environment) && SoundRow(rows[i], sources[i], target, environment);
      assert built[j].parentId == rows[j].parentId && built[j].proposedName == rows[j].proposedName;
    }
    forall i | 0 <= i < |rows| ensures SoundRow(rows[i], sources[i], target, environment) {
      assert IsJustified(built, i, rows[i], sources[i], target, environment);
    }
  }

  lemma JustifiedRowsAreOpen(built: seq<PlanRow>, rows: seq<PlanRow>, sources: seq<SourceSnapshot>,
                             target: TargetNames, environment: ValidationEnvironment)
    requires Justified(built, rows, sources, target, environment)
    ensures (forall i :: 0 <= i < |rows| ==> !rows[i].status.Blocked?)
              <==> forall i :: 0 <= i < |built| ==> !built[i].status.Blocked? && !IsObjectionable(target, environment, built, i)
  {
    forall i | 0 <= i < |rows|
      ensures !rows[i].status.Blocked? <==> !built[i].status.Blocked? && !IsObjectionable(target, environment, built, i)
    {
      assert IsJustified(built, i, rows[i], sources[i], target, environment);
    }
  }

  lemma ApplicablePlansAreSound(plan: RenamePlan, built: seq<PlanRow>, sources: seq<SourceSnapshot>, rules: RulePipeline,
                                overrides: seq<NameOverride>, target: TargetNames, environment: ValidationEnvironment)
    requires PlannedFrom(plan, built, sources, rules, overrides, target, environment)
    requires plan.changedCount == CountStatus(plan.rows, Changed) && plan.blockedCount == CountStatus(plan.rows, Blocked)
    ensures plan.CanApply() ==> SoundRows(plan.rows, sources, target, environment)
    ensures plan.CanApply() <==>
              && (exists i :: 0 <= i < |plan.rows| && plan.rows[i].status.Changed?)
              && (forall i :: 0 <= i < |built| ==> !built[i].status.Blocked? && !IsObjectionable(target, environment, built, i))
  {
    assert Justified(built, plan.rows, sources, target, environment) by {
      var values, validated :| AllAllocated(sources, rules, values, rules.count) && Validated(sources, overrides, validated)
                               && RowsPreview(built, sources, rules, values, validated, target)
                               && FirstCutIsDue(built, sources, rules, values, target);
      RowsAreJudged(built, plan.rows, sources, rules, values, validated, target, environment);
    }
    NothingBlocked(plan);
    JustifiedRowsAreOpen(built, plan.rows, sources, target, environment);
    if plan.CanApply() {
      JustifiedRowsAreSound(built, plan.rows, sources, target, environment);
    }
  }
}
