/** Apply, then undo: the second transaction meets the hypotheses of the cycle theorem, and running it
    gives back the very tree that the first one started from. */
module RoundTrip {
  import opened Primitives
  import opened Execution
  import opened Replay
  import opened Frames
  import opened Machine
  import opened Transaction
  import opened Plans
  import opened Lookup
  import opened Cycles
  import opened Undo

  function Home(e: JournalEntry): FrozenEntry
    requires e.nativeParent.Some?
  {
    FrozenEntry(e, e.nativeParent.value)
  }

  ghost predicate OriginalsApart(originals: seq<JournalEntry>)
    requires Addressed(originals)
  {
    forall i, j :: 0 <= i < j < |originals| ==> OriginalAt(Home(originals[i])) != OriginalAt(Home(originals[j]))
  }

  /** What a prepared undo has established about the filesystem it will run on. */
  ghost predicate Prepared(run: Run, fs: FileSystem, key: ComparisonKey, planId: u64, originalPlanId: u64,
                           originals: seq<JournalEntry>, unordered: seq<FrozenEntry>)
  {
    && run.initial == fs.tree && run.parents == fs.parents && fs.Honest()
    && Addressed(originals) && KeysApart(key, originals) && AllUndoable(fs, key, originals)
    && Reversal(fs, planId, originalPlanId, originals, unordered)
    && SameEntries(run.plan.entries, unordered) && Ordered(run.plan)
  }

  /** The original that an entry of the undo takes back. */
  lemma Partner(run: Run, fs: FileSystem, key: ComparisonKey, planId: u64, originalPlanId: u64,
                originals: seq<JournalEntry>, unordered: seq<FrozenEntry>, i: nat) returns (p: nat)
    requires Prepared(run, fs, key, planId, originalPlanId, originals, unordered)
    requires i < |run.plan.entries|
    ensures p < |originals| && Reverses(fs, planId, originalPlanId, originals[p], run.plan.entries[i])
    ensures Undoable(fs, key, originals, originals[p])
    ensures originals[p].sourceId == SourceIds(run.plan.entries)[i]
  {
    SameEntriesSameIds(run.plan.entries, unordered);
    assert run.plan.entries[i] in unordered;
    p :| 0 <= p < |unordered| && unordered[p] == run.plan.entries[i];
    assert originals[p] in originals;
  }

  /** Every original is taken back by some entry of the undo. */
  lemma TakenBack(run: Run, fs: FileSystem, key: ComparisonKey, planId: u64, originalPlanId: u64,
                  originals: seq<JournalEntry>, unordered: seq<FrozenEntry>, original: JournalEntry) returns (i: nat)
    requires Prepared(run, fs, key, planId, originalPlanId, originals, unordered) && original in originals
    ensures i < |run.plan.entries| && Reverses(fs, planId, originalPlanId, original, run.plan.entries[i])
  {
    SameEntriesSameIds(run.plan.entries, unordered);
    var p :| 0 <= p < |originals| && originals[p] == original;
    assert unordered[p] in unordered;
    i :| 0 <= i < |run.plan.entries| && run.plan.entries[i] == unordered[p];
  }

  lemma EntryIsAnchored(run: Run, fs: FileSystem, key: ComparisonKey, planId: u64, originalPlanId: u64,
                        originals: seq<JournalEntry>, unordered: seq<FrozenEntry>, i: nat)
    requires Prepared(run, fs, key, planId, originalPlanId, originals, unordered) && Injective(fs.tree)
    requires i < |run.plan.entries|
    ensures Anchored(run, run.plan.entries[i])
  {
    var e := run.plan.entries[i];
    var p := Partner(run, fs, key, planId, originalPlanId, originals, unordered, i);
    var original := originals[p];
    assert FinalAt(Home(original)) == OriginalAt(e) && OriginalAt(Home(original)) == FinalAt(e);
    if FinalAt(e) in run.initial {
      var identity := fs.IdentityInParent(FinalAt(e), original.parentExecutionIdentity.value).value;
      var owner :| owner in originals && owner.executionIdentity == identity
                   && FinalKey(key, owner) == (original.nativeParent.value, key(original.names.originalName));
      assert Arrived(fs, owner);
      assert FinalAt(Home(owner)) == FinalAt(e);
      var j := TakenBack(run, fs, key, planId, originalPlanId, originals, unordered, owner);
      assert OriginalAt(run.plan.entries[j]) == FinalAt(e);
    }
  }

  lemma EntriesAreApart(run: Run, fs: FileSystem, key: ComparisonKey, planId: u64, originalPlanId: u64,
                        originals: seq<JournalEntry>, unordered: seq<FrozenEntry>, i: nat, j: nat)
    requires Prepared(run, fs, key, planId, originalPlanId, originals, unordered) && OriginalsApart(originals)
    requires i < j < |run.plan.entries|
    ensures var a, b := run.plan.entries[i], run.plan.entries[j];
            OriginalAt(a) != OriginalAt(b) && TemporaryAt(a) != TemporaryAt(b) && FinalAt(a) != FinalAt(b)
  {
    var a, b := run.plan.entries[i], run.plan.entries[j];
    var p := Partner(run, fs, key, planId, originalPlanId, originals, unordered, i);
    var q := Partner(run, fs, key, planId, originalPlanId, originals, unordered, j);
    assert SourceIds(run.plan.entries)[i] < SourceIds(run.plan.entries)[j];
    assert p != q;
    var lo, hi := if p < q then p else q, if p < q then q else p;
    assert FinalKey(key, originals[lo]) != FinalKey(key, originals[hi]);
    assert OriginalAt(Home(originals[lo])) != OriginalAt(Home(originals[hi]));
    var m: u32 :| a.journalEntry.names.temporaryName == TemporaryName(planId, originals[p].sourceId, m);
    var n: u32 :| b.journalEntry.names.temporaryName == TemporaryName(planId, originals[q].sourceId, n);
    TemporaryNamesDiffer(planId, planId, originals[p].sourceId, originals[q].sourceId, m, n);
  }

  /** Readiness of an undo discharges the hypotheses of the cycle theorem. */
  lemma UndoIsPlotted(run: Run, fs: FileSystem, key: ComparisonKey, planId: u64, originalPlanId: u64,
                      originals: seq<JournalEntry>, unordered: seq<FrozenEntry>)
    requires Prepared(run, fs, key, planId, originalPlanId, originals, unordered)
    requires Injective(fs.tree) && OriginalsApart(originals)
    ensures Plotted(run)
  {
    var entries := run.plan.entries;
    forall i | 0 <= i < |entries| ensures Anchored(run, entries[i]) {
      EntryIsAnchored(run, fs, key, planId, originalPlanId, originals, unordered, i);
    }
    forall i, j | 0 <= i < j < |entries|
      ensures OriginalAt(entries[i]) != OriginalAt(entries[j])
      ensures TemporaryAt(entries[i]) != TemporaryAt(entries[j])
      ensures FinalAt(entries[i]) != FinalAt(entries[j])
    {
      EntriesAreApart(run, fs, key, planId, originalPlanId, originals, unordered, i, j);
    }
  }

  /** A ready undo restores every original name, chains and swaps included, if and only if its temporary
      names keep out of the way of the original ones. */
  lemma UndoRestoresNames(run: Run, fs: FileSystem, key: ComparisonKey, planId: u64, originalPlanId: u64,
                          originals: seq<JournalEntry>, unordered: seq<FrozenEntry>)
    requires Prepared(run, fs, key, planId, originalPlanId, originals, unordered)
    requires Injective(fs.tree) && OriginalsApart(originals)
    ensures run.Possible(run.Steps()) <==> Unobstructed(run.plan.entries)
    ensures run.Possible(run.Steps()) ==> forall original :: original in originals ==>
              var tree, at := run.TreeAfter(run.Steps()), OriginalAt(Home(original));
              at in tree && tree[at] == Node(original.executionIdentity, true)
  {
    UndoIsPlotted(run, fs, key, planId, originalPlanId, originals, unordered);
    CyclesSucceed(run);
    if run.Possible(run.Steps()) {
      var tree := run.TreeAfter(run.Steps());
      forall original | original in originals
        ensures OriginalAt(Home(original)) in tree
        ensures tree[OriginalAt(Home(original))] == Node(original.executionIdentity, true)
      {
        var i := TakenBack(run, fs, key, planId, originalPlanId, originals, unordered, original);
        assert UnsealedAt(LaidSeal, tree, 0);
        assert Spot(run.plan.entries, i, run.Steps()) == OriginalAt(Home(original));
      }
    }
  }

  /** The header of a plan frozen for `first`. */
  ghost predicate HeaderOf(first: Run, originals: seq<JournalEntry>) {
    && originals == JournalEntries(first.plan.entries)
    && forall e :: e in first.plan.entries ==> e.journalEntry.nativeParent == Some(e.parent)
  }

  lemma HeadersAreAddressed(first: Run, originals: seq<JournalEntry>)
    requires Plotted(first) && HeaderOf(first, originals)
    ensures Addressed(originals) && OriginalsApart(originals)
    ensures forall i :: 0 <= i < |originals| ==> Home(originals[i]) == first.plan.entries[i]
  {
    assert Unsealed(PlottedSeal, 0);
    forall i | 0 <= i < |originals|
      ensures originals[i].nativeParent.Some? && originals[i].parentExecutionIdentity.Some?
      ensures originals[i].nativeParent.value == first.plan.entries[i].parent
    {
      assert first.plan.entries[i] in first.plan.entries && Anchored(first, first.plan.entries[i]);
    }
  }

  /** Apply, then undo, is the identity on the whole tree. */
  lemma UndoIsInverse(first: Run, undo: Run, fs: FileSystem, key: ComparisonKey, planId: u64, originalPlanId: u64,
                      originals: seq<JournalEntry>, unordered: seq<FrozenEntry>)
    requires Plotted(first) && HeaderOf(first, originals) && Injective(first.initial)
    requires first.Reached(fs.tree, first.Steps())
    requires Prepared(undo, fs, key, planId, originalPlanId, originals, unordered)
    requires Unobstructed(undo.plan.entries)
    ensures undo.Possible(undo.Steps()) && undo.TreeAfter(undo.Steps()) == first.initial
  {
    HeadersAreAddressed(first, originals);
    RunsConserve(first, first.Steps());
    UndoIsPlotted(undo, fs, key, planId, originalPlanId, originals, unordered);
    CyclesSucceed(first);
    CyclesSucceed(undo);
    EverySwapHasItsReverse(first, undo, fs, key, planId, originalPlanId, originals, unordered);
    RestoresEverything(first, undo, fs.tree, undo.TreeAfter(undo.Steps()));
  }

  lemma EverySwapHasItsReverse(first: Run, undo: Run, fs: FileSystem, key: ComparisonKey, planId: u64, originalPlanId: u64,
                               originals: seq<JournalEntry>, unordered: seq<FrozenEntry>)
    requires Addressed(originals) && |originals| == |first.plan.entries|
    requires forall i :: 0 <= i < |originals| ==> Home(originals[i]) == first.plan.entries[i]
    requires Prepared(undo, fs, key, planId, originalPlanId, originals, unordered)
    ensures forall i :: 0 <= i < |first.plan.entries| ==> Swaps(first, undo, i)
    ensures forall j :: 0 <= j < |undo.plan.entries| ==> SwapsBack(first, undo, j)
  {
    forall i | 0 <= i < |first.plan.entries| ensures Swaps(first, undo, i) {
      var j := TakenBack(undo, fs, key, planId, originalPlanId, originals, unordered, originals[i]);
      assert Swapped(first.plan.entries[i], undo.plan.entries[j]);
    }
    forall j | 0 <= j < |undo.plan.entries| ensures SwapsBack(first, undo, j) {
      var i := Partner(undo, fs, key, planId, originalPlanId, originals, unordered, j);
      assert Swapped(first.plan.entries[i], undo.plan.entries[j]);
    }
  }

  lemma RestoresEverything(first: Run, undo: Run, between: Tree, after: Tree)
    requires Plotted(first) && Laid(first, between, first.Steps()) && undo.initial == between
    requires Plotted(undo) && Laid(undo, after, undo.Steps())
    requires forall i :: 0 <= i < |first.plan.entries| ==> Swaps(first, undo, i)
    requires forall j :: 0 <= j < |undo.plan.entries| ==> SwapsBack(first, undo, j)
    ensures after == first.initial
  {
    forall at ensures at in after <==> at in first.initial ensures at in after ==> after[at] == first.initial[at] {
      SameEverywhere(first, undo, between, after, at);
    }
  }

  ghost predicate Swapped(a: FrozenEntry, b: FrozenEntry) {
    OriginalAt(a) == FinalAt(b) && FinalAt(a) == OriginalAt(b)
    && a.journalEntry.executionIdentity == b.journalEntry.executionIdentity
  }

  ghost predicate Swaps(first: Run, undo: Run, i: nat)
    requires i < |first.plan.entries|
  {
    exists j :: 0 <= j < |undo.plan.entries| && Swapped(first.plan.entries[i], undo.plan.entries[j])
  }

  ghost predicate SwapsBack(first: Run, undo: Run, j: nat)
    requires j < |undo.plan.entries|
  {
    exists i :: 0 <= i < |first.plan.entries| && Swapped(first.plan.entries[i], undo.plan.entries[j])
  }

  lemma SameEverywhere(first: Run, undo: Run, between: Tree, after: Tree, at: Location)
    requires Plotted(first) && Laid(first, between, first.Steps()) && undo.initial == between
    requires Plotted(undo) && Laid(undo, after, undo.Steps())
    requires forall i :: 0 <= i < |first.plan.entries| ==> Swaps(first, undo, i)
    requires forall j :: 0 <= j < |undo.plan.entries| ==> SwapsBack(first, undo, j)
    ensures SameAt(after, first.initial, at)
  {
    var there, back := first.plan.entries, undo.plan.entries;
    assert UnsealedAt(LaidSeal, between, 0) && UnsealedAt(LaidSeal, after, 0);
    if IsSpot(back, at, undo.Steps()) {
      var j :| 0 <= j < |back| && Spot(back, j, undo.Steps()) == at;
      assert SwapsBack(first, undo, j);
      var i :| 0 <= i < |there| && Swapped(there[i], back[j]);
      assert Anchored(first, there[i]) by { assert Unsealed(PlottedSeal, 0); }
    } else {
      OriginalsAreRestored(first, undo, at);
      if at in after {
        assert Untouched(undo, after, at);
        ArrivedAtIsLeft(first, undo, at);
        assert Untouched(first, between, at);
      }
      if at in first.initial {
        assert Untouched(first, between, at);
        LeftFromIsPlanned(first, undo, at);
        assert Untouched(undo, after, at);
      }
    }
  }

  /** Every original name is where the undo leads to. */
  lemma OriginalsAreRestored(first: Run, undo: Run, at: Location)
    requires Plotted(undo) && forall i :: 0 <= i < |first.plan.entries| ==> Swaps(first, undo, i)
    ensures IsOriginal(first.plan.entries, at) ==> IsSpot(undo.plan.entries, at, undo.Steps())
  {
    var there, back := first.plan.entries, undo.plan.entries;
    if IsOriginal(there, at) {
      var i :| 0 <= i < |there| && OriginalAt(there[i]) == at;
      assert Swaps(first, undo, i);
      var j :| 0 <= j < |back| && Swapped(there[i], back[j]);
      assert Spot(back, j, undo.Steps()) == at;
    }
  }

  /** The undo leaves every final name of the first transaction. */
  lemma ArrivedAtIsLeft(first: Run, undo: Run, at: Location)
    requires Plotted(first) && forall i :: 0 <= i < |first.plan.entries| ==> Swaps(first, undo, i)
    ensures IsSpot(first.plan.entries, at, first.Steps()) ==> IsOriginal(undo.plan.entries, at)
  {
    var there, back := first.plan.entries, undo.plan.entries;
    if IsSpot(there, at, first.Steps()) {
      var i :| 0 <= i < |there| && Spot(there, i, first.Steps()) == at;
      assert Swaps(first, undo, i);
      var j :| 0 <= j < |back| && Swapped(there[i], back[j]);
    }
  }

  /** What the undo leaves was free before the first transaction, or planned. */
  lemma LeftFromIsPlanned(first: Run, undo: Run, at: Location)
    requires Plotted(first) && forall j :: 0 <= j < |undo.plan.entries| ==> SwapsBack(first, undo, j)
    ensures at in first.initial && IsOriginal(undo.plan.entries, at) ==> IsOriginal(first.plan.entries, at)
  {
    var there, back := first.plan.entries, undo.plan.entries;
    if IsOriginal(back, at) {
      var j :| 0 <= j < |back| && OriginalAt(back[j]) == at;
      assert SwapsBack(first, undo, j);
      var i :| 0 <= i < |there| && Swapped(there[i], back[j]);
      SpotsArePlanned(first, i, first.Steps());
    }
  }

  // ---------------------------------------------------------------- when an undo is offered

  /** No temporary name is a final name. */
  ghost predicate TemporariesClear(entries: seq<FrozenEntry>) {
    forall i, j :: 0 <= i < |entries| && 0 <= j < |entries| ==> TemporaryAt(entries[i]) != FinalAt(entries[j])
  }

  /** The journal of a finished transaction with this header that was not itself an undo. */
  ghost predicate FinishedWith(records: seq<JournalRecord>, originals: seq<JournalEntry>) {
    && Replayed(records) == Success(Completed) && records != [] && records[0].TransactionStarted?
    && records[0].entries == originals && forall e :: e in originals ==> e.undoOfPlanId.None?
  }

  /** Straight after a completed transaction an undo is offered if and only if no two final names of a
      directory compare equal and no temporary name has become a final one. Completing the transaction
      takes less: there a name may be left and then arrived at. */
  lemma UndoIsOffered(first: Run, records: seq<JournalRecord>, fs: FileSystem, key: ComparisonKey, originals: seq<JournalEntry>)
    requires Plotted(first) && first.Possible(first.Steps()) && HeaderOf(first, originals) && FinishedWith(records, originals)
    requires fs.tree == first.TreeAfter(first.Steps()) && fs.parents == first.parents && fs.Untroubled()
    ensures Addressed(originals)
    ensures Admissible(key, records) && AllUndoable(fs, key, originals) <==>
              KeysApart(key, originals) && TemporariesClear(first.plan.entries)
  {
    HeadersAreAddressed(first, originals);
    CyclesSucceed(first);
    if TemporariesClear(first.plan.entries) {
      forall e | e in originals ensures Undoable(fs, key, originals, e) {
        var i :| 0 <= i < |originals| && originals[i] == e;
        OfferedEntry(first, fs, key, originals, i);
      }
    }
    if AllUndoable(fs, key, originals) {
      OfferedIsClear(first, fs, key, originals);
    }
  }

  lemma OfferedIsClear(first: Run, fs: FileSystem, key: ComparisonKey, originals: seq<JournalEntry>)
    requires Plotted(first) && HeaderOf(first, originals) && Addressed(originals) && AllUndoable(fs, key, originals)
    requires Laid(first, fs.tree, first.Steps()) && fs.Untroubled()
    ensures TemporariesClear(first.plan.entries)
  {
    var entries := first.plan.entries;
    forall i, j | 0 <= i < |entries| && 0 <= j < |entries| ensures TemporaryAt(entries[i]) != FinalAt(entries[j]) {
      assert originals[i] in originals && entries[i] in entries;
      assert Arrived(fs, originals[i]);
      assert Spot(entries, j, first.Steps()) == FinalAt(entries[j]);
      assert FinalAt(entries[j]) in fs.tree && fs.tree[FinalAt(entries[j])].supported by {
        assert UnsealedAt(LaidSeal, fs.tree, 0);
      }
    }
  }

  lemma OfferedEntry(first: Run, fs: FileSystem, key: ComparisonKey, originals: seq<JournalEntry>, i: nat)
    requires Plotted(first) && HeaderOf(first, originals) && Addressed(originals) && i < |originals|
    requires Laid(first, fs.tree, first.Steps()) && fs.parents == first.parents && fs.Untroubled()
    requires TemporariesClear(first.plan.entries)
    ensures Undoable(fs, key, originals, originals[i])
  {
    var e := first.plan.entries[i];
    assert e in first.plan.entries && Home(originals[i]) == e;
    assert Anchored(first, e) by { assert Unsealed(PlottedSeal, 0); }
    ArrivesAndLeaves(first, fs.tree, i);
    if OriginalAt(e) in fs.tree {
      var j := WhoIsThere(first, fs.tree, i);
      assert originals[j] in originals && first.plan.entries[j] in first.plan.entries;
      assert FinalKey(key, originals[j]) == (originals[i].nativeParent.value, key(originals[i].names.originalName));
    }
  }

  lemma ArrivesAndLeaves(first: Run, tree: Tree, i: nat)
    requires Plotted(first) && i < |first.plan.entries| && Laid(first, tree, first.Steps())
    requires TemporariesClear(first.plan.entries)
    ensures var e := first.plan.entries[i];
            && FinalAt(e) in tree && tree[FinalAt(e)] == Node(e.journalEntry.executionIdentity, true)
            && TemporaryAt(e) !in tree
  {
    var entries, steps := first.plan.entries, first.Steps();
    var e := entries[i];
    assert Anchored(first, e) by { assert Unsealed(PlottedSeal, 0); }
    assert UnsealedAt(LaidSeal, tree, 0);
    assert Spot(entries, i, steps) == FinalAt(e);
    assert TemporaryAt(e) in tree ==> IsSpot(entries, TemporaryAt(e), steps) || Untouched(first, tree, TemporaryAt(e));
  }

  /** An original name that is taken has become the final name of some source. */
  lemma WhoIsThere(first: Run, tree: Tree, i: nat) returns (j: nat)
    requires Plotted(first) && i < |first.plan.entries| && Laid(first, tree, first.Steps())
    requires OriginalAt(first.plan.entries[i]) in tree
    ensures j < |first.plan.entries| && FinalAt(first.plan.entries[j]) == OriginalAt(first.plan.entries[i])
    ensures tree[OriginalAt(first.plan.entries[i])] == Node(first.plan.entries[j].journalEntry.executionIdentity, true)
  {
    var entries, steps, at := first.plan.entries, first.Steps(), OriginalAt(first.plan.entries[i]);
    assert UnsealedAt(LaidSeal, tree, 0);
    assert IsOriginal(entries, at);
    assert IsSpot(entries, at, steps) || Untouched(first, tree, at);
    j :| 0 <= j < |entries| && Spot(entries, j, steps) == at;
  }
}
