/** Why two phases: swaps and cycles succeed with a rename that never replaces, exactly when no
    temporary name stands in the way of a final one. */
module Cycles {
  import opened Primitives
  import opened Execution
  import opened Frames
  import opened Machine
  import opened Transaction
  import opened Plans

  function OriginalAt(e: FrozenEntry): Location { Location(e.parent, e.journalEntry.names.originalName) }

  function TemporaryAt(e: FrozenEntry): Location { Location(e.parent, e.journalEntry.names.temporaryName) }

  function FinalAt(e: FrozenEntry): Location { Location(e.parent, e.journalEntry.names.finalName) }

  /** What a plan expects to find: every source under its original name with its own identity, nothing
      under the temporary names, and nothing under a final name that no planned source leaves. */
  ghost predicate Anchored(run: Run, e: FrozenEntry) {
    && e.journalEntry.parentExecutionIdentity.Some?
    && e.parent in run.parents && run.parents[e.parent] == e.journalEntry.parentExecutionIdentity.value
    && OriginalAt(e) in run.initial && run.initial[OriginalAt(e)] == Node(e.journalEntry.executionIdentity, true)
    && TemporaryAt(e) !in run.initial
    && (FinalAt(e) in run.initial ==> IsOriginal(run.plan.entries, FinalAt(e)))
  }

  ghost predicate IsOriginal(entries: seq<FrozenEntry>, at: Location) {
    exists j :: 0 <= j < |entries| && OriginalAt(entries[j]) == at
  }

  ghost predicate Apart(entries: seq<FrozenEntry>) {
    && (forall i, j :: 0 <= i < j < |entries| ==> OriginalAt(entries[i]) != OriginalAt(entries[j]))
    && (forall i, j :: 0 <= i < j < |entries| ==> TemporaryAt(entries[i]) != TemporaryAt(entries[j]))
    && (forall i, j :: 0 <= i < j < |entries| ==> FinalAt(entries[i]) != FinalAt(entries[j]))
  }

  ghost predicate Plotted(run: Run)
    ensures Plotted(run) ==> run.Steps() == 2 * |run.plan.entries|
  {
    var sealed := forall x {:trigger Unsealed(PlottedSeal, x)} :: Unsealed(PlottedSeal, x) ==> IsPlotted(run);
    assert sealed ==> IsPlotted(run) by { assert Unsealed(PlottedSeal, 0); }
    sealed
  }

  ghost predicate IsPlotted(run: Run) {
    && Ordered(run.plan)
    && Apart(run.plan.entries)
    && forall i :: 0 <= i < |run.plan.entries| ==> Anchored(run, run.plan.entries[i])
  }

  /** A temporary name is out of the way of every final name if its own source has moved on before. */
  ghost predicate Unobstructed(entries: seq<FrozenEntry>) {
    forall i, j :: 0 <= i < |entries| && 0 <= j < |entries| && TemporaryAt(entries[i]) == FinalAt(entries[j]) ==> i < j
  }

  /** Where source `i` is after `k` steps. */
  ghost function Spot(entries: seq<FrozenEntry>, i: nat, k: nat): Location
    requires i < |entries|
  {
    if k <= i then OriginalAt(entries[i])
    else if k <= |entries| + i then TemporaryAt(entries[i])
    else FinalAt(entries[i])
  }

  ghost predicate IsSpot(entries: seq<FrozenEntry>, at: Location, k: nat) {
    exists i :: 0 <= i < |entries| && Spot(entries, i, k) == at
  }

  /** The tree after `k` steps: each source exactly where it should be, everything else untouched. */
  ghost predicate Laid(run: Run, tree: Tree, k: nat) {
    forall x {:trigger UnsealedAt(LaidSeal, tree, x)} :: UnsealedAt(LaidSeal, tree, x) ==> IsLaid(run, tree, k)
  }

  ghost predicate IsLaid(run: Run, tree: Tree, k: nat) {
    SpotsHold(run.plan.entries, tree, k) && SpotsApart(run.plan.entries, k) && RestStays(run, tree, k)
  }

  ghost predicate SpotsHold(entries: seq<FrozenEntry>, tree: Tree, k: nat) {
    forall i :: 0 <= i < |entries| ==>
      Spot(entries, i, k) in tree && tree[Spot(entries, i, k)] == Node(entries[i].journalEntry.executionIdentity, true)
  }

  ghost predicate SpotsApart(entries: seq<FrozenEntry>, k: nat) {
    forall i, j :: 0 <= i < j < |entries| ==> Spot(entries, i, k) != Spot(entries, j, k)
  }

  ghost predicate RestStays(run: Run, tree: Tree, k: nat) {
    && (forall at :: !IsSpot(run.plan.entries, at, k) && at in tree ==> Untouched(run, tree, at))
    && (forall at :: at in run.initial && !IsOriginal(run.plan.entries, at) ==> Untouched(run, tree, at))
  }

  ghost predicate Untouched(run: Run, tree: Tree, at: Location) {
    && at in run.initial && !IsOriginal(run.plan.entries, at)
    && at in tree && tree[at] == run.initial[at]
  }

  lemma StartsLaid(run: Run)
    requires Plotted(run)
    ensures Laid(run, run.initial, 0)
  {
    assert UnsealedAt(LaidSeal, run.initial, 0) && Unsealed(PlottedSeal, 0);
    var entries := run.plan.entries;
    forall at | !IsSpot(entries, at, 0) && at in run.initial ensures Untouched(run, run.initial, at) {
      OriginalsAreFirstSpots(entries, at);
    }
  }

  lemma OriginalsAreFirstSpots(entries: seq<FrozenEntry>, at: Location)
    ensures IsOriginal(entries, at) ==> IsSpot(entries, at, 0)
  {
    if IsOriginal(entries, at) {
      var j :| 0 <= j < |entries| && OriginalAt(entries[j]) == at;
      assert Spot(entries, j, 0) == at;
    }
  }

  /** The source that step `k` moves. */
  function Mover(n: nat, k: nat): nat {
    if k < n then k else k - n
  }

  /** Step `k` moves its source from one spot to the next. */
  lemma StepMoves(plan: PlanView, k: nat)
    requires Ordered(plan) && k < |plan.schedule|
    requires plan.entries[Mover(|plan.entries|, k)].journalEntry.parentExecutionIdentity.Some?
    ensures ForwardMove(plan, k).Some?
    ensures var i := Mover(|plan.entries|, k); var e := plan.entries[i];
            var move := ForwardMove(plan, k).value;
            && move.parent == e.parent && move.parentIdentity == e.journalEntry.parentExecutionIdentity.value
            && move.identity == e.journalEntry.executionIdentity
            && move.From() == Spot(plan.entries, i, k) && move.To() == Spot(plan.entries, i, k + 1)
  {
    var n := |plan.entries|;
    var i := Mover(n, k);
    assert plan.schedule[k] == ExecutionStep(k, SourceIds(plan.entries)[i], if k < n then SourceToTemporary else TemporaryToFinal);
    assert plan.Entry(plan.schedule[k].sourceId) == Some(plan.entries[i]) by {
      EntryIsUnique(plan.entries, i);
    }
  }

  /** A step is possible exactly if no other source occupies its target. */
  lemma StepIsFree(run: Run, tree: Tree, k: nat)
    requires Plotted(run) && k < run.Steps() && Laid(run, tree, k)
    ensures var i := Mover(|run.plan.entries|, k); var entries := run.plan.entries;
            && ForwardMove(run.plan, k).Some?
            && (Enabled(tree, run.parents, ForwardMove(run.plan, k).value) <==> !IsSpot(entries, Spot(entries, i, k + 1), k))
  {
    assert UnsealedAt(LaidSeal, tree, 0) && Unsealed(PlottedSeal, 0);
    var entries := run.plan.entries;
    var n := |entries|;
    var i := Mover(n, k);
    StepMoves(run.plan, k);
    var move := ForwardMove(run.plan, k).value;
    assert Anchored(run, entries[i]);
    if !IsSpot(entries, move.To(), k) {
      assert Spot(entries, i, k) == move.From();
      assert move.To() in tree ==> Untouched(run, tree, move.To());
    }
  }

  /** `after` is `tree` with what was at `from` moved to `to`. */
  ghost predicate Relocated(tree: Tree, from: Location, to: Location, after: Tree) {
    && from in tree && to !in tree && from !in after && to in after && after[to] == tree[from]
    && forall at :: at != from && at != to ==> (at in after <==> at in tree) && (at in tree ==> after[at] == tree[at])
  }

  lemma StepKeepsLaid(run: Run, tree: Tree, k: nat)
    requires Plotted(run) && k < run.Steps() && Laid(run, tree, k)
    requires ForwardMove(run.plan, k).Some? && Enabled(tree, run.parents, ForwardMove(run.plan, k).value)
    ensures Laid(run, Moved(tree, ForwardMove(run.plan, k).value), k + 1)
  {
    var entries := run.plan.entries;
    var m := Mover(|entries|, k);
    assert StepIsSpotted(run, k) by {
      assert Unsealed(PlottedSeal, 0);
      assert Anchored(run, entries[m]);
      StepMoves(run.plan, k);
    }
    RelocationKeepsLaid(run, tree, Moved(tree, ForwardMove(run.plan, k).value), k);
  }

  ghost predicate StepIsSpotted(run: Run, k: nat)
    requires k < run.Steps() == 2 * |run.plan.entries|
  {
    var m := Mover(|run.plan.entries|, k);
    var move := ForwardMove(run.plan, k);
    move.Some? && move.value.From() == Spot(run.plan.entries, m, k) && move.value.To() == Spot(run.plan.entries, m, k + 1)
  }

  lemma RelocationKeepsLaid(run: Run, tree: Tree, after: Tree, k: nat)
    requires Plotted(run) && k < run.Steps() && Laid(run, tree, k)
    requires var entries := run.plan.entries; var m := Mover(|entries|, k);
             Relocated(tree, Spot(entries, m, k), Spot(entries, m, k + 1), after)
    ensures Laid(run, after, k + 1)
  {
    var entries := run.plan.entries;
    var m := Mover(|entries|, k);
    SpotsMoveOn(run, tree, after, k);
    RestIsUntouched(run, tree, after, k);
    assert UnsealedAt(LaidSeal, tree, 0);
  }

  lemma SpotsMoveOn(run: Run, tree: Tree, after: Tree, k: nat)
    requires k < run.Steps() == 2 * |run.plan.entries| && Laid(run, tree, k)
    requires var entries := run.plan.entries; var m := Mover(|entries|, k);
             Relocated(tree, Spot(entries, m, k), Spot(entries, m, k + 1), after)
    ensures SpotsHold(run.plan.entries, after, k + 1) && SpotsApart(run.plan.entries, k + 1)
  {
    var entries := run.plan.entries;
    var m := Mover(|entries|, k);
    assert UnsealedAt(LaidSeal, tree, 0);
    forall i | 0 <= i < |entries| && i != m
      ensures Spot(entries, i, k + 1) == Spot(entries, i, k) != Spot(entries, m, k + 1)
      ensures Spot(entries, i, k) != Spot(entries, m, k)
    {
    }
  }

  lemma RestIsUntouched(run: Run, tree: Tree, after: Tree, k: nat)
    requires Plotted(run) && k < run.Steps() && Laid(run, tree, k)
    requires var entries := run.plan.entries; var m := Mover(|entries|, k);
             Relocated(tree, Spot(entries, m, k), Spot(entries, m, k + 1), after)
    ensures RestStays(run, after, k + 1)
  {
    var entries := run.plan.entries;
    var m := Mover(|entries|, k);
    assert RestStays(run, tree, k) by { assert UnsealedAt(LaidSeal, tree, 0); }
    SpotsArePlanned(run, m, k);
    forall at | !IsSpot(entries, at, k + 1) && at in after ensures Untouched(run, after, at) {
      OtherSpotsStay(entries, at, m, k);
      assert Untouched(run, tree, at);
    }
    forall at | at in run.initial && !IsOriginal(entries, at) ensures Untouched(run, after, at) {
      assert Untouched(run, tree, at);
    }
  }

  lemma OtherSpotsStay(entries: seq<FrozenEntry>, at: Location, m: nat, k: nat)
    requires m < |entries| && k < 2 * |entries| && m == Mover(|entries|, k)
    ensures at == Spot(entries, m, k + 1) ==> IsSpot(entries, at, k + 1)
    ensures at != Spot(entries, m, k) && IsSpot(entries, at, k) ==> IsSpot(entries, at, k + 1)
  {
    if at != Spot(entries, m, k) && IsSpot(entries, at, k) {
      var i :| 0 <= i < |entries| && Spot(entries, i, k) == at;
      assert Spot(entries, i, k + 1) == at;
    }
  }

  /** No source ever stands where an unplanned entry was. */
  lemma SpotsArePlanned(run: Run, i: nat, k: nat)
    requires Plotted(run) && i < |run.plan.entries|
    ensures Spot(run.plan.entries, i, k) in run.initial ==> IsOriginal(run.plan.entries, Spot(run.plan.entries, i, k))
  {
    assert Unsealed(PlottedSeal, 0);
    assert Anchored(run, run.plan.entries[i]);
  }

  lemma TreeAfterStep(run: Run, k: nat)
    requires k < run.Steps() && run.Possible(k + 1)
    ensures ForwardMove(run.plan, k).Some? && Enabled(run.TreeAfter(k), run.parents, ForwardMove(run.plan, k).value)
    ensures run.TreeAfter(k + 1) == Moved(run.TreeAfter(k), ForwardMove(run.plan, k).value)
  {
    assert run.StepPossible(k);
  }

  lemma LaidTree(run: Run, k: nat) returns (tree: Tree)
    requires Plotted(run) && run.Possible(k)
    ensures tree == run.TreeAfter(k) && Laid(run, tree, k)
  {
    tree := run.initial;
    StartsLaid(run);
    for i := 0 to k
      invariant tree == run.TreeAfter(i)
      invariant Laid(run, tree, i)
    {
      TreeAfterStep(run, i);
      StepKeepsLaid(run, tree, i);
      tree := Moved(tree, ForwardMove(run.plan, i).value);
    }
  }

  /** Every reached tree is laid out exactly: all sources accounted for, everything else untouched. */
  lemma ReachedIsLaid(run: Run, k: nat)
    requires Plotted(run) && run.Possible(k)
    ensures Laid(run, run.TreeAfter(k), k)
  {
    var tree := LaidTree(run, k);
  }

  /** Leaving for a temporary name always works; arriving works if nobody waits there. */
  lemma TargetIsFree(run: Run, k: nat)
    requires Plotted(run) && k < run.Steps() && Unobstructed(run.plan.entries)
    ensures var i := Mover(|run.plan.entries|, k); var entries := run.plan.entries; !IsSpot(entries, Spot(entries, i, k + 1), k)
  {
    assert Unsealed(PlottedSeal, 0);
    var entries := run.plan.entries;
    var n := |entries|;
    var m := Mover(n, k);
    forall i | 0 <= i < n ensures Spot(entries, i, k) != Spot(entries, m, k + 1) {
      assert Anchored(run, entries[i]) && Anchored(run, entries[m]);
      assert i < m ==> FinalAt(entries[i]) != FinalAt(entries[m]) && TemporaryAt(entries[i]) != TemporaryAt(entries[m]);
      assert m < i ==> TemporaryAt(entries[m]) != TemporaryAt(entries[i]);
    }
  }

  /** Swaps and cycles succeed: the whole schedule is possible if and only if no temporary name is the
      final name of its own or an earlier source. */
  lemma CyclesSucceed(run: Run)
    requires Plotted(run)
    ensures run.Possible(run.Steps()) <==> Unobstructed(run.plan.entries)
    ensures run.Possible(run.Steps()) ==> Laid(run, run.TreeAfter(run.Steps()), run.Steps())
  {
    if Unobstructed(run.plan.entries) {
      PossibleThrough(run, run.Steps());
    }
    if run.Possible(run.Steps()) {
      ReachedIsLaid(run, run.Steps());
      PossibleIsUnobstructed(run);
    }
  }

  lemma StepSucceeds(run: Run, k: nat)
    requires Plotted(run) && Unobstructed(run.plan.entries) && k < run.Steps() && run.Possible(k)
    ensures run.StepPossible(k)
  {
    ReachedIsLaid(run, k);
    TargetIsFree(run, k);
    StepIsFree(run, run.TreeAfter(k), k);
  }

  lemma PossibleExtends(run: Run, k: nat)
    requires k < run.Steps() && run.Possible(k) && run.StepPossible(k)
    ensures run.Possible(k + 1)
  {
    forall i | 0 <= i < k + 1 ensures run.StepPossible(i) {
      if i < k {
      }
    }
  }

  lemma {:induction false} PossibleThrough(run: Run, k: nat)
    requires Plotted(run) && Unobstructed(run.plan.entries) && k <= run.Steps()
    ensures run.Possible(k)
  {
    if k > 0 {
      PossibleThrough(run, k - 1);
      StepSucceeds(run, k - 1);
      PossibleExtends(run, k - 1);
    }
  }

  /** The first pass always succeeds, whatever the final names are. */
  lemma {:induction false} FirstPassSucceeds(run: Run, k: nat)
    requires Plotted(run) && k <= |run.plan.entries|
    ensures run.Possible(k)
  {
    if k > 0 {
      FirstPassSucceeds(run, k - 1);
      ReachedIsLaid(run, k - 1);
      LeavingIsFree(run, k - 1);
      StepIsFree(run, run.TreeAfter(k - 1), k - 1);
      PossibleExtends(run, k - 1);
    }
  }

  lemma LeavingIsFree(run: Run, k: nat)
    requires Plotted(run) && k < |run.plan.entries|
    ensures !IsSpot(run.plan.entries, Spot(run.plan.entries, k, k + 1), k)
  {
    assert Unsealed(PlottedSeal, 0);
    var entries := run.plan.entries;
    forall i | 0 <= i < |entries| ensures Spot(entries, i, k) != Spot(entries, k, k + 1) {
      assert Anchored(run, entries[i]) && Anchored(run, entries[k]);
      assert i < k ==> TemporaryAt(entries[i]) != TemporaryAt(entries[k]);
    }
  }

  /** A source still waiting under a temporary name keeps that name from being anyone's final one. */
  lemma WaitingBlocks(run: Run, i: nat, j: nat)
    requires Plotted(run) && j <= i < |run.plan.entries|
    requires TemporaryAt(run.plan.entries[i]) == FinalAt(run.plan.entries[j])
    ensures !run.Possible(|run.plan.entries| + j + 1)
  {
    var k := |run.plan.entries| + j;
    if run.Possible(k) {
      WaitingStands(run, i, j);
    }
  }

  lemma WaitingStands(run: Run, i: nat, j: nat)
    requires Plotted(run) && j <= i < |run.plan.entries| && run.Possible(|run.plan.entries| + j)
    requires TemporaryAt(run.plan.entries[i]) == FinalAt(run.plan.entries[j])
    ensures !run.StepPossible(|run.plan.entries| + j)
  {
    var entries := run.plan.entries;
    var k := |entries| + j;
    ReachedIsLaid(run, k);
    StepIsFree(run, run.TreeAfter(k), k);
    assert IsSpot(entries, Spot(entries, j, k + 1), k) by {
      assert Spot(entries, i, k) == Spot(entries, j, k + 1);
    }
  }

  lemma PossibleIsUnobstructed(run: Run)
    requires Plotted(run) && run.Possible(run.Steps())
    ensures Unobstructed(run.plan.entries)
  {
    var entries := run.plan.entries;
    var n := |entries|;
    forall i, j | 0 <= i < n && 0 <= j < n && TemporaryAt(entries[i]) == FinalAt(entries[j]) ensures i < j {
      if j <= i {
        WaitingBlocks(run, i, j);
        assert false;
      }
    }
  }

  // ---------------------------------------------------------------- conservation

  ghost predicate Injective(tree: Tree) {
    forall a, b :: a in tree && b in tree && tree[a].identity == tree[b].identity ==> a == b
  }

  ghost predicate IsEndpoint(plan: PlanView, at: Location) {
    exists i :: 0 <= i < |plan.schedule| && ForwardMove(plan, i).Some?
                && (at == ForwardMove(plan, i).value.From() || at == ForwardMove(plan, i).value.To())
  }

  /** A rename neither loses nor duplicates an entry. */
  lemma MovedConserves(tree: Tree, parents: Parents, move: Move)
    requires Enabled(tree, parents, move)
    ensures Moved(tree, move).Values == tree.Values
    ensures Injective(tree) ==> Injective(Moved(tree, move))
    ensures |Moved(tree, move)| == |tree|
  {
    var after := Moved(tree, move);
    assert after.Keys == tree.Keys - {move.From()} + {move.To()};
    forall node ensures node in after.Values <==> node in tree.Values {
      if node in tree.Values {
        var at :| at in tree && tree[at] == node;
        var there := if at == move.From() then move.To() else at;
        assert there in after && after[there] == node;
      }
    }
  }

  /** The same entries, and one name for each if there was one for each before. */
  ghost predicate KeepsEntries(before: Tree, after: Tree) {
    && after.Values == before.Values && |after| == |before|
    && (Injective(before) ==> Injective(after))
  }

  lemma KeepingIsTransitive(a: Tree, b: Tree, c: Tree)
    requires KeepsEntries(a, b) && KeepsEntries(b, c)
    ensures KeepsEntries(a, c)
  {
  }

  lemma StepConserves(run: Run, k: nat)
    requires k < run.Steps()
    ensures KeepsEntries(run.TreeAfter(k), run.TreeAfter(k + 1))
  {
    var tree, move := run.TreeAfter(k), ForwardMove(run.plan, k);
    if move.Some? && Enabled(tree, run.parents, move.value) {
      MovedConserves(tree, run.parents, move.value);
    }
  }

  lemma RunsKeep(run: Run, k: nat) returns (tree: Tree)
    requires k <= run.Steps()
    ensures tree == run.TreeAfter(k) && KeepsEntries(run.initial, tree)
  {
    tree := run.initial;
    for i := 0 to k
      invariant tree == run.TreeAfter(i) && KeepsEntries(run.initial, tree)
    {
      var next := run.TreeAfter(i + 1);
      StepConserves(run, i);
      KeepingIsTransitive(run.initial, tree, next);
      tree := next;
    }
  }

  /** Whatever a plan says and however far a run gets, every entry is still there, once. */
  lemma RunsConserve(run: Run, k: nat)
    requires k <= run.Steps()
    ensures run.TreeAfter(k).Values == run.initial.Values && |run.TreeAfter(k)| == |run.initial|
    ensures Injective(run.initial) ==> Injective(run.TreeAfter(k))
  {
    var tree := RunsKeep(run, k);
  }

  ghost predicate SameAt(a: Tree, b: Tree, at: Location) {
    (at in a <==> at in b) && (at in a ==> a[at] == b[at])
  }

  /** Every name outside the plan is as it was. */
  lemma {:induction false} RunsKeepUnplannedNames(run: Run, k: nat, at: Location)
    requires k <= run.Steps() && !IsEndpoint(run.plan, at)
    ensures SameAt(run.TreeAfter(k), run.initial, at)
  {
    if k > 0 {
      RunsKeepUnplannedNames(run, k - 1, at);
      var tree, move := run.TreeAfter(k - 1), ForwardMove(run.plan, k - 1);
      if move.Some? && Enabled(tree, run.parents, move.value) {
        assert at != move.value.From() && at != move.value.To();
      }
    }
  }
}
