/** From a finished transaction to its undo, by way of the ledger: what the journals of the two say when they are
    discovered again. */
module Lineage {
  import opened Primitives
  import opened Execution
  import opened Replay
  import opened Frames
  import opened Journal
  import opened Machine
  import opened Transaction
  import opened Plans
  import opened Lookup
  import opened Course
  import opened Executor
  import opened Crash
  import opened Registry
  import opened PlanRows
  import opened Planner
  import opened Undo
  import opened RoundTrip
  import opened Outcomes
  import Freeze
  import RecordCodec
  import Catalog
  import Ledger
  import Discovery

  const CURRENT: u16 := RecordCodec.JOURNAL_SCHEMA_VERSION

  /** Once the header of a run is durable, every crash leaves it as the first record. */
  lemma HeaderSurvives(crc: Checksum, run: Run, m: Moment, cut: nat)
    requires run.write == Writer(crc, CURRENT) && SafeMoment(run, m) && m.durable > 0 && m.syncedLength <= cut <= |m.file|
    ensures Measured(Reader(crc))
    ensures var records := Ledger.RecordsIn(crc, m.file[..cut]); records != [] && records[0] == run.header
  {
    var k := SurvivorsArePrefix(crc, CURRENT, m, cut);
    assert m.written[..k][0] == m.written[0];
  }

  // ---------------------------------------------------------------- the undo stands

  lemma UndosNameTheirOriginal(run: Run, fs: FileSystem, key: ComparisonKey, planId: u64, records: seq<JournalRecord>, crc: Checksum)
    requires Admissible(key, records) && records[0].entries != [] && IsPreparedRun(run, fs, key, planId, records, crc)
    ensures run.header.TransactionStarted? && run.header.entries != []
    ensures forall e :: e in run.header.entries ==> e.undoOfPlanId == Some(records[0].planId)
  {
    var originals := records[0].entries;
    var unordered :| Prepared(run, fs, key, planId, records[0].planId, originals, unordered)
      && run.Steps() <= USIZE_MAX && run.write == Writer(crc, CURRENT)
      && run.header == TransactionStarted(planId, records[0].sourceGeneration, run.Steps(), JournalEntries(run.plan.entries));
    SameEntriesSameIds(run.plan.entries, unordered);
    forall i | 0 <= i < |run.plan.entries| ensures run.header.entries[i].undoOfPlanId == Some(records[0].planId) {
      var p := Partner(run, fs, key, planId, records[0].planId, originals, unordered, i);
    }
  }

  /** From the moment that the header of an undo is durable, whatever a crash leaves of its journal stands against
      the transaction that it undoes, unless it tells that the undo itself was taken back. */
  lemma ExecutedUndosStand(crc: Checksum, run: Run, fs: FileSystem, key: ComparisonKey, planId: u64, records: seq<JournalRecord>,
                           m: Moment, cut: nat)
    requires Admissible(key, records) && records[0].entries != [] && IsPreparedRun(run, fs, key, planId, records, crc)
    requires SafeMoment(run, m) && m.durable > 0 && m.syncedLength <= cut <= |m.file|
    ensures Measured(Reader(crc))
    ensures Discovery.StandingUndo(crc, m.file[..cut], records[0].planId) <==> !Discovery.IsTakenBack(crc, m.file[..cut])
  {
    UndosNameTheirOriginal(run, fs, key, planId, records, crc);
    HeaderSurvives(crc, run, m, cut);
    assert UnsealedAt(ListingSeal, m.file[..cut], 0);
    assert run.header.entries[0] in run.header.entries;
  }

  /** While the kept journals fit into the byte limit, an executed undo has the transaction that it undoes offered
      no more. */
  lemma ExecutedUndosWithdraw(crc: Checksum, entries: seq<Catalog.DirectoryEntry>, files: Discovery.Files, maxJournals: nat, maxBytes: nat,
                              order: seq<Catalog.Key>, all: seq<Discovery.CatalogItem>, ledger: Discovery.RenameLedger, i: nat, j: nat,
                              run: Run, fs: FileSystem, key: ComparisonKey, planId: u64, records: seq<JournalRecord>, m: Moment, cut: nat)
    requires Measured(Reader(crc)) && Discovery.Discovered(crc, entries, files, maxJournals, maxBytes, order, all, ledger)
    requires Discovery.FitTogether(files, order, maxBytes) && i < |order| && j < |order|
    requires Admissible(key, records) && records[0].entries != [] && IsPreparedRun(run, fs, key, planId, records, crc)
    requires Discovery.ShowsUndoable(crc, files, order, i, maxBytes, records[0].planId)
    requires SafeMoment(run, m) && m.durable > 0 && m.syncedLength <= cut <= |m.file|
    requires files(order[j].name) == Some(m.file[..cut]) && Discovery.IsReadable(files(order[j].name))
    requires !Discovery.IsTakenBack(crc, m.file[..cut])
    ensures !ledger.items[i].projection.undoAvailable
  {
    ExecutedUndosStand(crc, run, fs, key, planId, records, m, cut);
    Discovery.FittingUndosCount(crc, entries, files, maxJournals, maxBytes, order, all, ledger, i, j, records[0].planId);
  }

  // ---------------------------------------------------------------- the original is undoable

  /** Every entry says where it lives, and undoes nothing. */
  ghost predicate IsOriginal(entries: seq<JournalEntry>) {
    forall e :: e in entries ==> e.nativeParent.Some? && e.parentExecutionIdentity.Some? && e.undoOfPlanId.None?
  }

  lemma FrozenIsOriginal(c: Contents, plan: RenamePlan, fs: FileSystem, frozen: FrozenExecutionPlan, unordered: seq<FrozenEntry>)
    requires Freeze.Frozen(c, plan, fs, frozen, unordered) && |frozen.schedule| <= USIZE_MAX
    ensures IsOriginal(frozen.InitialRecord().entries) && frozen.InitialRecord().planId == plan.id
  {
    forall e | e in frozen.InitialRecord().entries
      ensures e.nativeParent.Some? && e.parentExecutionIdentity.Some? && e.undoOfPlanId.None?
    {
      var i :| 0 <= i < |frozen.entries| && frozen.entries[i].journalEntry == e;
      SameEntriesSameIds(frozen.entries, unordered);
      assert frozen.entries[i] in unordered;
      var k :| 0 <= k < |unordered| && unordered[k] == frozen.entries[i];
      assert UnsealedAt(FrozenSeal, unordered[k], 0);
    }
  }

  /** The journal of an applied plan that has finished is discovered as undoable, under the id of the plan. */
  lemma FinishedRunsAreUndoable(crc: Checksum, run: Run, c: Contents, plan: RenamePlan, fs: FileSystem,
                                frozen: FrozenExecutionPlan, unordered: seq<FrozenEntry>, m: Moment, shouldCancel: nat -> bool)
    requires Freeze.Frozen(c, plan, fs, frozen, unordered) && |frozen.schedule| <= USIZE_MAX
    requires run.write == Writer(crc, CURRENT) && run.header == frozen.InitialRecord()
    requires SafeMoment(run, m) && Ends(run, crc, m, shouldCancel, ExecutionOutcome.Finished)
    ensures Measured(Reader(crc)) && Discovery.IsUndoable(crc, m.file, plan.id)
  {
    FrozenIsOriginal(c, plan, fs, frozen, unordered);
    assert UnsealedAt(EndSeal, m, 0);
    FaithfulInspects(crc, CURRENT, m);
    assert m.file[..|m.file|] == m.file;
    assert m.syncedLength <= |m.file| by { SyncedIsWritten(crc, run, m); }
  }

  lemma SyncedIsWritten(crc: Checksum, run: Run, m: Moment)
    requires run.write == Writer(crc, CURRENT) && SafeMoment(run, m)
    ensures m.syncedLength <= |m.file|
  {
    assert Unsealed(FaithfulSeal, 0);
    EncodingsPrefix(run.write, m.written, m.durable);
    assert |Concat(Encodings(run.write, m.written)[..m.durable])| <= |Concat(Encodings(run.write, m.written))| by {
      ConcatGrows(Encodings(run.write, m.written), m.durable);
    }
  }

  lemma {:induction false} ConcatGrows(chunks: seq<seq<u8>>, k: nat)
    requires k <= |chunks|
    ensures |Concat(chunks[..k])| <= |Concat(chunks)|
    decreases |chunks|
  {
    if k == |chunks| {
      assert chunks[..k] == chunks;
    } else {
      ConcatGrows(chunks[..|chunks| - 1], k);
      assert chunks[..|chunks| - 1][..k] == chunks[..k];
    }
  }
}
