/** Discovering the journals of a directory within the limits of the ledger, and starting up from them. */
module Discovery {
  import opened Primitives
  import opened Execution
  import opened Frames
  import opened Journal
  import opened Replay
  import opened Catalog
  import opened Ledger

  // ---------------------------------------------------------------- discovery

  /** `path` is the journal, or nothing for the entry that says that journals were left out. */
  datatype CatalogItem = CatalogItem(projection: LedgerEntry, path: Option<Name>, inspectable: bool)

  datatype RenameLedger = RenameLedger(items: seq<CatalogItem>, latestPlanId: Option<u64>)

  /** What the files of the directory hold; nothing for one that cannot be read. */
  type Files = Name -> Option<seq<u8>>

  function NumberedFrom1(index: nat): u64 {
    if index + 1 <= U64_MAX then index + 1 else U64_MAX
  }

  function ReadBounded(file: Option<seq<u8>>, remaining: nat): Result<seq<u8>, LedgerStatus> {
    match file
    case None => Failure(Unreadable)
    case Some(bytes) =>
      if |bytes| > MAX_JOURNAL_FILE_BYTES then Failure(TooLarge)
      else if |bytes| > remaining then Failure(DiscoveryLimitExceeded)
      else Success(bytes)
  }

  /** What is left of the byte limit after the first `k` journals. */
  ghost function Left(files: Files, order: seq<Key>, k: nat, most: nat): (r: nat)
    requires k <= |order|
    ensures r <= most
  {
    if k == 0 then most
    else
      var remaining := Left(files, order, k - 1, most);
      match ReadBounded(files(order[k - 1].name), remaining)
      case Success(bytes) => remaining - |bytes|
      case Failure(_) => remaining
  }

  /** What is listed for the `i`th journal before it is known what has been undone. */
  ghost function Listed(crc: Checksum, files: Files, order: seq<Key>, i: nat, most: nat): CatalogItem
    requires i < |order| && Measured(Reader(crc))
  {
    ItemFor(crc, NumberedFrom1(i), order[i].name, ReadBounded(files(order[i].name), Left(files, order, i, most)))
  }

  ghost function ItemFor(crc: Checksum, ledgerId: u64, name: Name, read: Result<seq<u8>, LedgerStatus>): CatalogItem
    requires Measured(Reader(crc))
  {
    match read
    case Success(bytes) => CatalogItem(Listing(crc, ledgerId, bytes), Some(name), true)
    case Failure(status) => CatalogItem(EmptyProjection(ledgerId, status), Some(name), false)
  }

  ghost function Cutoff(index: nat): CatalogItem {
    CatalogItem(EmptyProjection(NumberedFrom1(index), DiscoveryLimitExceeded), None, false)
  }

  ghost predicate AllListed(crc: Checksum, files: Files, order: seq<Key>, most: nat, items: seq<CatalogItem>)
    requires Measured(Reader(crc))
  {
    && |items| <= |order|
    && forall i :: 0 <= i < |items| ==> items[i] == Listed(crc, files, order, i, most)
  }

  /** Some listed transaction that was not taken back itself undoes the plan. */
  ghost predicate IsSuperseded(items: seq<CatalogItem>, planId: Option<u64>) {
    planId.Some? && exists item :: item in items && item.projection.undoOfPlanId == planId && item.projection.status != TakenBack
  }

  ghost function Withdrawn(items: seq<CatalogItem>, item: CatalogItem): CatalogItem {
    if IsSuperseded(items, item.projection.planId) then item.(projection := item.projection.(undoAvailable := false)) else item
  }

  /** The journals that are kept, in the order of their ids and names. */
  method InKeyOrder(keys: set<Key>) returns (order: seq<Key>)
    ensures |order| == |keys| && forall key :: key in keys <==> key in order
    ensures forall i, j :: 0 <= i < j < |order| ==> KeyLess(order[i], order[j])
  {
    order := [];
    var rest := keys;
    while rest != {}
      invariant |order| + |rest| == |keys| && forall key :: key in keys <==> key in order || key in rest
      invariant forall i, j :: 0 <= i < j < |order| ==> KeyLess(order[i], order[j])
      invariant forall i, key :: 0 <= i < |order| && key in rest ==> KeyLess(order[i], key)
      decreases |rest|
    {
      FirstExists(rest);
      var first :| IsFirst(first, rest);
      order, rest := order + [first], rest - {first};
    }
  }

  method ListJournal(crc: Checksum, ledgerId: u64, name: Name, read: Result<seq<u8>, LedgerStatus>) returns (item: CatalogItem)
    ensures Measured(Reader(crc)) && item == ItemFor(crc, ledgerId, name, read)
  {
    ReaderIsSound(crc);
    match read
    case Success(bytes) =>
      var inspection := InspectJournal(crc, bytes);
      return CatalogItem(ProjectInspection(ledgerId, inspection), Some(name), true);
    case Failure(status) =>
      return CatalogItem(EmptyProjection(ledgerId, status), Some(name), false);
  }

  lemma OneMoreListed(crc: Checksum, files: Files, order: seq<Key>, most: nat, items: seq<CatalogItem>, item: CatalogItem)
    requires Measured(Reader(crc)) && AllListed(crc, files, order, most, items) && |items| < |order|
    requires item == Listed(crc, files, order, |items|, most)
    ensures AllListed(crc, files, order, most, items + [item])
  {
    var longer := items + [item];
    forall i | 0 <= i < |longer| ensures longer[i] == Listed(crc, files, order, i, most) {
      if i < |items| {
        assert longer[i] == items[i];
      }
    }
  }

  /** Reads the kept journals within the byte limit. */
  method ListJournals(crc: Checksum, files: Files, order: seq<Key>, most: nat) returns (items: seq<CatalogItem>)
    ensures Measured(Reader(crc)) && |items| == |order| && AllListed(crc, files, order, most, items)
  {
    ReaderIsSound(crc);
    items := [];
    var remaining := most;
    for i := 0 to |order|
      invariant |items| == i && AllListed(crc, files, order, most, items) && remaining == Left(files, order, i, most)
    {
      var read := ReadBounded(files(order[i].name), remaining);
      var item := ListJournal(crc, NumberedFrom1(i), order[i].name, read);
      OneMoreListed(crc, files, order, most, items, item);
      items := items + [item];
      remaining := if read.Success? then remaining - |read.value| else remaining;
    }
  }

  /** No listed transaction is offered for an undo while another listed one undoes it. */
  method WithdrawSuperseded(items: seq<CatalogItem>) returns (r: seq<CatalogItem>)
    ensures |r| == |items| && forall i :: 0 <= i < |items| ==> r[i] == Withdrawn(items, items[i])
  {
    var superseded := set item | item in items && item.projection.status != TakenBack && item.projection.undoOfPlanId.Some?
                        :: item.projection.undoOfPlanId.value;
    r := items;
    for i := 0 to |items|
      invariant |r| == |items|
      invariant forall j :: 0 <= j < i ==> r[j] == Withdrawn(items, items[j])
      invariant forall j :: i <= j < |items| ==> r[j] == items[j]
    {
      var projection := r[i].projection;
      if projection.planId.Some? && projection.planId.value in superseded {
        r := r[i := r[i].(projection := projection.(undoAvailable := false))];
      }
    }
  }

  /** The plan id in the header of the `j`th journal, if that was read within the byte limit and has one. */
  ghost function HeaderId(crc: Checksum, files: Files, order: seq<Key>, j: nat, most: nat): Option<u64>
    requires j < |order| && Measured(Reader(crc))
  {
    match ReadBounded(files(order[j].name), Left(files, order, j, most))
    case Failure(_) => None
    case Success(bytes) =>
      var records := RecordsIn(crc, bytes);
      if HasHeader(records) then Some(records[0].planId) else None
  }

  lemma ListsHeaderId(crc: Checksum, files: Files, order: seq<Key>, j: nat, most: nat)
    requires j < |order| && Measured(Reader(crc))
    ensures Listed(crc, files, order, j, most).projection.planId == HeaderId(crc, files, order, j, most)
  {
    match ReadBounded(files(order[j].name), Left(files, order, j, most))
    case Failure(_) =>
    case Success(bytes) => ListsTheHeader(NumberedFrom1(j), Inspected(Reader(crc), bytes));
  }

  /** The greatest id in the names of the journals, kept or left out, and in the headers of those that were read. */
  ghost predicate IsLatestFound(crc: Checksum, entries: seq<DirectoryEntry>, files: Files, order: seq<Key>, most: nat, latest: Option<u64>)
    requires Measured(Reader(crc))
  {
    && (forall key :: key in Journals(entries) && key.planId.Some? ==> latest.Some? && key.planId.value <= latest.value)
    && (forall j :: 0 <= j < |order| && HeaderId(crc, files, order, j, most).Some? ==>
          latest.Some? && HeaderId(crc, files, order, j, most).value <= latest.value)
    && (latest.Some? ==>
          || (exists key :: key in Journals(entries) && key.planId == latest)
          || (exists j :: 0 <= j < |order| && HeaderId(crc, files, order, j, most) == latest))
  }

  ghost predicate IsGreatest(latest: Option<u64>, ids: set<Option<u64>>) {
    && (forall id :: id in ids && id.Some? ==> latest.Some? && id.value <= latest.value)
    && (latest.Some? ==> latest in ids)
  }

  ghost function PlanIdsOf(items: seq<CatalogItem>): set<Option<u64>> {
    set item | item in items :: item.projection.planId
  }

  method LatestPlanId(items: seq<CatalogItem>, named: Option<u64>) returns (latest: Option<u64>)
    ensures IsGreatest(latest, PlanIdsOf(items) + {named})
  {
    latest := named;
    for i := 0 to |items|
      invariant IsGreatest(latest, PlanIdsOf(items[..i]) + {named})
    {
      assert items[..i + 1] == items[..i] + [items[i]];
      var id := items[i].projection.planId;
      if id.Some? && (latest.None? || latest.value < id.value) {
        latest := id;
      }
    }
    assert items[..|items|] == items;
  }

  /** What discovery makes of a directory. */
  ghost predicate Discovered(crc: Checksum, entries: seq<DirectoryEntry>, files: Files, maxJournals: nat, maxBytes: nat,
                             order: seq<Key>, all: seq<CatalogItem>, ledger: RenameLedger)
    requires Measured(Reader(crc))
    ensures Discovered(crc, entries, files, maxJournals, maxBytes, order, all, ledger) ==> |order| <= |all| == |ledger.items|
  {
    var sealed := forall x {:trigger Unsealed(CatalogSeal, x)} :: Unsealed(CatalogSeal, x) ==>
                    IsDiscovered(crc, entries, files, maxJournals, maxBytes, order, all, ledger);
    assert sealed ==> |order| <= |all| == |ledger.items| by { assert Unsealed(CatalogSeal, 0); }
    sealed
  }

  ghost predicate IsDiscovered(crc: Checksum, entries: seq<DirectoryEntry>, files: Files, maxJournals: nat, maxBytes: nat,
                               order: seq<Key>, all: seq<CatalogItem>, ledger: RenameLedger)
    requires Measured(Reader(crc))
  {
    && KeepsGreatest((set key | key in order), Journals(entries), maxJournals)
    && (forall i, j :: 0 <= i < j < |order| ==> KeyLess(order[i], order[j]))
    && |order| <= |all| && AllListed(crc, files, order, maxBytes, all[..|order|])
    && all[|order|..] == (if |Journals(entries)| > maxJournals then [Cutoff(|order|)] else [])
    && |ledger.items| == |all| && (forall i :: 0 <= i < |all| ==> ledger.items[i] == Withdrawn(all, all[i]))
  }

  lemma LatestIsFound(crc: Checksum, entries: seq<DirectoryEntry>, files: Files, order: seq<Key>, most: nat, items: seq<CatalogItem>,
                      named: Option<u64>, latest: Option<u64>)
    requires Measured(Reader(crc)) && |order| <= |items| && AllListed(crc, files, order, most, items[..|order|])
    requires forall i :: |order| <= i < |items| ==> items[i].projection.planId.None?
    requires IsLatest(named, Journals(entries)) && IsGreatest(latest, PlanIdsOf(items) + {named})
    ensures IsLatestFound(crc, entries, files, order, most, latest)
  {
    forall i | 0 <= i < |order| ensures items[i].projection.planId == HeaderId(crc, files, order, i, most) {
      assert items[..|order|][i] == items[i];
      ListsHeaderId(crc, files, order, i, most);
    }
    forall i | 0 <= i < |order| ensures HeaderId(crc, files, order, i, most) in PlanIdsOf(items) {
      assert items[i] in items;
    }
    if latest.Some? && latest != named {
      var item :| item in items && item.projection.planId == latest;
      var i :| 0 <= i < |items| && items[i] == item;
    }
  }

  /** Discovers the journals of a directory: the newest ones, read in the order of their ids within the byte
      limit. The latest plan id covers the journals that were left out or not read as well. */
  method Discover(crc: Checksum, entries: seq<DirectoryEntry>, files: Files, maxJournals: nat, maxBytes: nat)
    returns (ledger: RenameLedger, ghost order: seq<Key>, ghost all: seq<CatalogItem>)
    ensures Measured(Reader(crc)) && Discovered(crc, entries, files, maxJournals, maxBytes, order, all, ledger)
    ensures IsLatestFound(crc, entries, files, order, maxBytes, ledger.latestPlanId)
  {
    var kept, limited, named := BoundedJournalCandidates(entries, maxJournals);
    var keys := InKeyOrder(kept);
    order := keys;
    assert kept == set key | key in order;
    var items := ListJournals(crc, files, keys, maxBytes);
    if limited {
      items := items + [CatalogItem(EmptyProjection(NumberedFrom1(|items|), DiscoveryLimitExceeded), None, false)];
    }
    all := items;
    var latest := LatestPlanId(items, named);
    var offered := WithdrawSuperseded(items);
    LatestIsFound(crc, entries, files, order, maxBytes, items, named, latest);
    ledger := RenameLedger(offered, latest);
  }

  // ---------------------------------------------------------------- what discovery promises

  /** The listed journals are numbered from 1, each under its name; an entry without a name says that some were
      left out. One that was not read is listed for the reason, and offers nothing. */
  lemma ItemsAreNumbered(crc: Checksum, entries: seq<DirectoryEntry>, files: Files, maxJournals: nat, maxBytes: nat,
                         order: seq<Key>, all: seq<CatalogItem>, ledger: RenameLedger, i: nat)
    requires Measured(Reader(crc)) && Discovered(crc, entries, files, maxJournals, maxBytes, order, all, ledger)
    requires i < |ledger.items| <= U64_MAX
    ensures ledger.items[i].projection.ledgerId == i + 1
    ensures ledger.items[i].path == if i < |order| then Some(order[i].name) else None
    ensures |ledger.items| > |order| <==> |Journals(entries)| > maxJournals
    ensures ledger.items[i].inspectable <==> i < |order| && IsRead(files, order, i, maxBytes)
    ensures !ledger.items[i].inspectable ==>
              var p := ledger.items[i].projection;
              && p.planId.None? && p.undoOfPlanId.None? && !p.recoveryAvailable && !p.undoAvailable
              && p.status == if i >= |order| then DiscoveryLimitExceeded
                             else if files(order[i].name).None? then Unreadable
                             else if |files(order[i].name).value| > MAX_JOURNAL_FILE_BYTES then TooLarge
                             else DiscoveryLimitExceeded
  {
    assert Unsealed(CatalogSeal, 0);
    if i < |order| {
      JournalIsListed(crc, entries, files, maxJournals, maxBytes, order, all, ledger, i);
    } else {
      assert all[|order|..][i - |order|] == all[i];
    }
  }

  /** The journal can be read, is not too large, and the ones before it leave enough of the byte limit. */
  ghost predicate IsRead(files: Files, order: seq<Key>, i: nat, most: nat)
    requires i < |order|
  {
    IsReadable(files(order[i].name)) && |files(order[i].name).value| <= Left(files, order, i, most)
  }

  /** A transaction that is offered for an undo has not been undone by any other listed one. */
  lemma OfferedIsNotUndone(crc: Checksum, entries: seq<DirectoryEntry>, files: Files, maxJournals: nat, maxBytes: nat,
                           order: seq<Key>, all: seq<CatalogItem>, ledger: RenameLedger, i: nat, j: nat)
    requires Measured(Reader(crc)) && Discovered(crc, entries, files, maxJournals, maxBytes, order, all, ledger)
    requires i < |ledger.items| && j < |ledger.items|
    requires ledger.items[i].projection.undoAvailable && ledger.items[i].projection.planId.Some?
    requires ledger.items[j].projection.undoOfPlanId == ledger.items[i].projection.planId
    ensures ledger.items[j].projection.status == TakenBack
  {
    assert Unsealed(CatalogSeal, 0);
    assert ledger.items[i] == Withdrawn(all, all[i]) && ledger.items[j] == Withdrawn(all, all[j]);
    assert all[j] in all;
  }

  /** Leaving out old journals never separates a transaction from its undo: the undo has the greater id. */
  lemma UndosAreKept(kept: set<Key>, all: set<Key>, most: nat, original: Key, undo: Key)
    requires KeepsGreatest(kept, all, most) && original in kept && undo in all
    requires original.planId.Some? && undo.planId.Some? && original.planId.value < undo.planId.value
    ensures undo in kept
  {
    if undo !in kept {
      assert undo in all - kept && KeyLess(undo, original);
      KeyLessIsTotal(undo, original);
    }
  }

  /** The `j`th journal was read within the byte limit, and is that of an undo of the plan that still stands. */
  ghost predicate IsReadUndo(crc: Checksum, files: Files, order: seq<Key>, j: nat, most: nat, planId: u64)
    requires j < |order| && Measured(Reader(crc))
  {
    forall x {:trigger UnsealedAt(ListingSeal, j, x)} :: UnsealedAt(ListingSeal, j, x) ==>
      var read := ReadBounded(files(order[j].name), Left(files, order, j, most));
      read.Success? && StandingUndo(crc, read.value, planId)
  }

  /** The journal is that of a transaction that undoes the plan and was not taken back. */
  ghost predicate StandingUndo(crc: Checksum, bytes: seq<u8>, planId: u64)
    requires Measured(Reader(crc))
  {
    forall x {:trigger UnsealedAt(ListingSeal, bytes, x)} :: UnsealedAt(ListingSeal, bytes, x) ==>
      UndoesPlan(RecordsIn(crc, bytes), planId) && !IsTakenBack(crc, bytes)
  }

  ghost predicate UndoesPlan(records: seq<JournalRecord>, planId: u64) {
    HasHeader(records) && records[0].entries != [] && records[0].entries[0].undoOfPlanId == Some(planId)
  }

  /** The journal is whole, of one lineage, and ends with the transaction taken back. */
  ghost predicate IsTakenBack(crc: Checksum, bytes: seq<u8>)
    requires Measured(Reader(crc))
  {
    var records := RecordsIn(crc, bytes);
    && Decoded(Reader(crc), bytes).Success? && HasHeader(records) && OneLineage(records[0].entries)
    && Replayed(records).Success? && Replayed(records).value.RolledBack?
  }

  /** Transaction `i` was read within the byte limit; by its own journal it has this plan id, is finished and can
      be taken back. */
  ghost predicate ShowsUndoable(crc: Checksum, files: Files, order: seq<Key>, i: nat, most: nat, planId: u64)
    requires i < |order| && Measured(Reader(crc))
  {
    forall x {:trigger UnsealedAt(ListingSeal, i, x)} :: UnsealedAt(ListingSeal, i, x) ==>
      var read := ReadBounded(files(order[i].name), Left(files, order, i, most));
      read.Success? && IsUndoable(crc, read.value, planId)
  }

  ghost predicate IsUndoable(crc: Checksum, bytes: seq<u8>, planId: u64)
    requires Measured(Reader(crc))
  {
    var records := RecordsIn(crc, bytes);
    Decoded(Reader(crc), bytes).Success? && Reversible(records) && records[0].planId == planId
  }

  lemma ListsUndoable(crc: Checksum, files: Files, order: seq<Key>, i: nat, most: nat, planId: u64)
    requires Measured(Reader(crc)) && i < |order|
    ensures var listing := Listed(crc, files, order, i, most).projection;
            ShowsUndoable(crc, files, order, i, most, planId) <==> listing.undoAvailable && listing.planId == Some(planId)
  {
    assert UnsealedAt(ListingSeal, i, 0);
    var read := ReadBounded(files(order[i].name), Left(files, order, i, most));
    if read.Success? {
      ListsUndo(NumberedFrom1(i), Inspected(Reader(crc), read.value));
      ListsTheHeader(NumberedFrom1(i), Inspected(Reader(crc), read.value));
    }
  }

  /** A transaction that its own journal shows as undoable is offered if and only if no undo of it that still
      stands was read within the byte limit. */
  lemma OfferedUnlessUndoIsRead(crc: Checksum, entries: seq<DirectoryEntry>, files: Files, maxJournals: nat, maxBytes: nat,
                                order: seq<Key>, all: seq<CatalogItem>, ledger: RenameLedger, i: nat, planId: u64)
    requires Measured(Reader(crc)) && Discovered(crc, entries, files, maxJournals, maxBytes, order, all, ledger)
    requires i < |order| && ShowsUndoable(crc, files, order, i, maxBytes, planId)
    ensures ledger.items[i].projection.undoAvailable <==>
              forall j :: 0 <= j < |order| ==> !IsReadUndo(crc, files, order, j, maxBytes, planId)
  {
    JournalIsListed(crc, entries, files, maxJournals, maxBytes, order, all, ledger, i);
    ListsUndoable(crc, files, order, i, maxBytes, planId);
    SupersededIsRead(crc, entries, files, maxJournals, maxBytes, order, all, ledger, planId);
  }

  lemma JournalIsListed(crc: Checksum, entries: seq<DirectoryEntry>, files: Files, maxJournals: nat, maxBytes: nat,
                        order: seq<Key>, all: seq<CatalogItem>, ledger: RenameLedger, i: nat)
    requires Measured(Reader(crc)) && Discovered(crc, entries, files, maxJournals, maxBytes, order, all, ledger) && i < |order|
    ensures all[i] == Listed(crc, files, order, i, maxBytes) && ledger.items[i] == Withdrawn(all, all[i])
  {
    assert Unsealed(CatalogSeal, 0);
    assert all[..|order|][i] == all[i];
  }

  /** What stands against a listed transaction are the undos of it that were read. */
  lemma SupersededIsRead(crc: Checksum, entries: seq<DirectoryEntry>, files: Files, maxJournals: nat, maxBytes: nat,
                         order: seq<Key>, all: seq<CatalogItem>, ledger: RenameLedger, planId: u64)
    requires Measured(Reader(crc)) && Discovered(crc, entries, files, maxJournals, maxBytes, order, all, ledger)
    ensures IsSuperseded(all, Some(planId)) <==>
              exists j :: 0 <= j < |order| && IsReadUndo(crc, files, order, j, maxBytes, planId)
  {
    forall j | 0 <= j < |order|
      ensures IsReadUndo(crc, files, order, j, maxBytes, planId) <==>
                all[j].projection.undoOfPlanId == Some(planId) && all[j].projection.status != TakenBack
      ensures all[j] in all
    {
      JournalIsListed(crc, entries, files, maxJournals, maxBytes, order, all, ledger, j);
      ListsReadUndo(crc, files, order, j, maxBytes, planId);
    }
    if IsSuperseded(all, Some(planId)) {
      var item :| item in all && item.projection.undoOfPlanId == Some(planId) && item.projection.status != TakenBack;
      var j :| 0 <= j < |all| && all[j] == item;
      if j >= |order| {
        OnlyJournalsUndo(crc, entries, files, maxJournals, maxBytes, order, all, ledger, j);
      }
    }
  }

  lemma OnlyJournalsUndo(crc: Checksum, entries: seq<DirectoryEntry>, files: Files, maxJournals: nat, maxBytes: nat,
                         order: seq<Key>, all: seq<CatalogItem>, ledger: RenameLedger, j: nat)
    requires Measured(Reader(crc)) && Discovered(crc, entries, files, maxJournals, maxBytes, order, all, ledger)
    requires |order| <= j < |all|
    ensures all[j].projection.undoOfPlanId.None? && all[j].projection.planId.None?
  {
    assert Unsealed(CatalogSeal, 0);
    assert all[|order|..][j - |order|] == all[j];
  }

  lemma ListsReadUndo(crc: Checksum, files: Files, order: seq<Key>, j: nat, most: nat, planId: u64)
    requires Measured(Reader(crc)) && j < |order|
    ensures var listing := Listed(crc, files, order, j, most).projection;
            IsReadUndo(crc, files, order, j, most, planId) <==> listing.undoOfPlanId == Some(planId) && listing.status != TakenBack
  {
    assert UnsealedAt(ListingSeal, j, 0);
    var read := ReadBounded(files(order[j].name), Left(files, order, j, most));
    if read.Success? {
      assert UnsealedAt(ListingSeal, read.value, 0);
      ListsTheHeader(NumberedFrom1(j), Inspected(Reader(crc), read.value));
      ListsTheStatus(NumberedFrom1(j), Inspected(Reader(crc), read.value));
    }
  }

  /** The bytes of the first `k` journals, as far as they can be read at all. */
  ghost function ReadableBytes(files: Files, order: seq<Key>, k: nat): nat
    requires k <= |order|
  {
    if k == 0 then 0
    else ReadableBytes(files, order, k - 1) + if IsReadable(files(order[k - 1].name)) then |files(order[k - 1].name).value| else 0
  }

  /** The kept journals that can be read at all fit into the byte limit together. */
  ghost predicate FitTogether(files: Files, order: seq<Key>, most: nat) {
    forall x {:trigger Unsealed(CatalogSeal, x)} :: Unsealed(CatalogSeal, x) ==> ReadableBytes(files, order, |order|) <= most
  }

  ghost predicate IsReadable(file: Option<seq<u8>>) {
    file.Some? && |file.value| <= MAX_JOURNAL_FILE_BYTES
  }

  lemma {:induction false} FittingJournalsAreRead(files: Files, order: seq<Key>, k: nat, most: nat)
    requires k <= |order| && ReadableBytes(files, order, k) <= most
    ensures Left(files, order, k, most) == most - ReadableBytes(files, order, k)
  {
    if k > 0 {
      FittingJournalsAreRead(files, order, k - 1, most);
    }
  }

  lemma {:induction false} BytesAddUp(files: Files, order: seq<Key>, j: nat, k: nat)
    requires j <= k <= |order|
    ensures ReadableBytes(files, order, j) <= ReadableBytes(files, order, k)
    decreases k
  {
    if j < k {
      BytesAddUp(files, order, j, k - 1);
    }
  }

  lemma FittingJournalIsRead(files: Files, order: seq<Key>, j: nat, most: nat)
    requires j < |order| && FitTogether(files, order, most) && IsReadable(files(order[j].name))
    ensures ReadBounded(files(order[j].name), Left(files, order, j, most)) == Success(files(order[j].name).value)
  {
    assert Unsealed(CatalogSeal, 0);
    BytesAddUp(files, order, j + 1, |order|);
    FittingJournalsAreRead(files, order, j, most);
  }

  lemma FittingUndoIsRead(crc: Checksum, files: Files, order: seq<Key>, j: nat, most: nat, planId: u64)
    requires Measured(Reader(crc)) && j < |order| && FitTogether(files, order, most)
    requires IsReadable(files(order[j].name)) && StandingUndo(crc, files(order[j].name).value, planId)
    ensures IsReadUndo(crc, files, order, j, most, planId)
  {
    FittingJournalIsRead(files, order, j, most);
  }

  /** While the kept journals fit into the byte limit together, no transaction is offered that one of them
      undoes. */
  lemma FittingUndosCount(crc: Checksum, entries: seq<DirectoryEntry>, files: Files, maxJournals: nat, maxBytes: nat,
                          order: seq<Key>, all: seq<CatalogItem>, ledger: RenameLedger, i: nat, j: nat, planId: u64)
    requires Measured(Reader(crc)) && Discovered(crc, entries, files, maxJournals, maxBytes, order, all, ledger)
    requires FitTogether(files, order, maxBytes)
    requires i < |order| && ShowsUndoable(crc, files, order, i, maxBytes, planId)
    requires j < |order| && IsReadable(files(order[j].name))
    requires StandingUndo(crc, files(order[j].name).value, planId)
    ensures !ledger.items[i].projection.undoAvailable
  {
    FittingUndoIsRead(crc, files, order, j, maxBytes, planId);
    OfferedUnlessUndoIsRead(crc, entries, files, maxJournals, maxBytes, order, all, ledger, i, planId);
  }

  /** Beyond the limit it happens: if what was read before leaves less than the length of the only undo, that is
      listed without what it undoes, and the transaction that it took back is offered once more. */
  lemma UnreadUndosDoNotCount(crc: Checksum, entries: seq<DirectoryEntry>, files: Files, maxJournals: nat, maxBytes: nat,
                              order: seq<Key>, all: seq<CatalogItem>, ledger: RenameLedger, i: nat, j: nat, undo: seq<u8>, planId: u64)
    requires Measured(Reader(crc)) && Discovered(crc, entries, files, maxJournals, maxBytes, order, all, ledger)
    requires i < |order| && ShowsUndoable(crc, files, order, i, maxBytes, planId)
    requires j < |order| && files(order[j].name) == Some(undo) && StandingUndo(crc, undo, planId)
    requires Left(files, order, j, maxBytes) < |undo|
    requires forall k :: 0 <= k < |order| && k != j ==> !IsReadUndo(crc, files, order, k, maxBytes, planId)
    ensures ledger.items[i].projection.undoAvailable
    ensures ledger.items[j].projection
              == EmptyProjection(NumberedFrom1(j), if |undo| > MAX_JOURNAL_FILE_BYTES then TooLarge else DiscoveryLimitExceeded)
  {
    assert !IsReadUndo(crc, files, order, j, maxBytes, planId) by { assert UnsealedAt(ListingSeal, j, 0); }
    OfferedUnlessUndoIsRead(crc, entries, files, maxJournals, maxBytes, order, all, ledger, i, planId);
    assert Unsealed(CatalogSeal, 0);
    assert all[..|order|][j] == all[j] == Listed(crc, files, order, j, maxBytes);
  }

  // ---------------------------------------------------------------- for instance

  const MAX_DISCOVERED_JOURNAL_BYTES: nat := MAX_JOURNAL_FILE_BYTES

  function Zeros(length: nat): seq<u8> {
    seq(length, i => 0)
  }

  lemma NoUndoInZeros(crc: Checksum, length: nat, planId: u64)
    requires Measured(Reader(crc))
    ensures !StandingUndo(crc, Zeros(length), planId)
  {
    var s := Zeros(length);
    if |s| >= FRAME_HEADER_BYTES {
      assert s[..4][0] == 0 != MAGIC[0];
    }
    assert Inspected(Reader(crc), s).frames == [];
    assert UnsealedAt(ListingSeal, s, 0);
  }

  lemma ZerosAreNoUndo(crc: Checksum, files: Files, order: seq<Key>, j: nat, most: nat, length: nat, planId: u64)
    requires Measured(Reader(crc)) && j < |order| && files(order[j].name) == Some(Zeros(length))
    ensures !IsReadUndo(crc, files, order, j, most, planId)
  {
    assert UnsealedAt(ListingSeal, j, 0);
    NoUndoInZeros(crc, length, planId);
  }

  lemma UndoIsNotEmpty(crc: Checksum, undo: seq<u8>, planId: u64)
    requires Measured(Reader(crc)) && StandingUndo(crc, undo, planId)
    ensures undo != []
  {
    NoUndoInZeros(crc, 0, planId);
    assert Zeros(0) == [];
  }

  /** A transaction that can be undone does not itself undo any. */
  lemma UndoableIsNoUndo(crc: Checksum, files: Files, order: seq<Key>, i: nat, most: nat, planId: u64)
    requires Measured(Reader(crc)) && i < |order| && ShowsUndoable(crc, files, order, i, most, planId)
    ensures !IsReadUndo(crc, files, order, i, most, planId)
  {
    assert UnsealedAt(ListingSeal, i, 0);
    var read := ReadBounded(files(order[i].name), Left(files, order, i, most));
    assert UnsealedAt(ListingSeal, read.value, 0);
  }

  /** With three journals, zeros that leave nothing of the byte limit have the transaction offered again. */
  lemma HiddenBehindZeros(crc: Checksum, entries: seq<DirectoryEntry>, files: Files, maxJournals: nat, most: nat,
                          order: seq<Key>, all: seq<CatalogItem>, ledger: RenameLedger, i: nat, z: nat, j: nat,
                          length: nat, undo: seq<u8>, planId: u64)
    requires Measured(Reader(crc)) && Discovered(crc, entries, files, maxJournals, most, order, all, ledger)
    requires |order| == 3 && i == 0 && z == 1 && j == 2
    requires ShowsUndoable(crc, files, order, i, most, planId) && files(order[z].name) == Some(Zeros(length))
    requires files(order[j].name) == Some(undo) && StandingUndo(crc, undo, planId) && Left(files, order, j, most) == 0
    ensures ledger.items[i].projection.undoAvailable
  {
    UndoableIsNoUndo(crc, files, order, i, most, planId);
    ZerosAreNoUndo(crc, files, order, z, most, length, planId);
    UndoIsNotEmpty(crc, undo, planId);
    forall k | 0 <= k < |order| && k != j ensures !IsReadUndo(crc, files, order, k, most, planId) {
      assert k == i || k == z;
    }
    UnreadUndosDoNotCount(crc, entries, files, maxJournals, most, order, all, ledger, i, j, undo, planId);
  }

  /** At the limit of the program one file of zeros between a finished journal and its undo is enough. */
  lemma ZerosHideTheUndo(crc: Checksum, entries: seq<DirectoryEntry>, files: Files, maxJournals: nat,
                         order: seq<Key>, all: seq<CatalogItem>, ledger: RenameLedger, first: seq<u8>, undo: seq<u8>, planId: u64)
    requires Measured(Reader(crc)) && |order| == 3
    requires Discovered(crc, entries, files, maxJournals, MAX_DISCOVERED_JOURNAL_BYTES, order, all, ledger)
    requires files(order[0].name) == Some(first) && |first| <= MAX_JOURNAL_FILE_BYTES
    requires files(order[1].name) == Some(Zeros(MAX_JOURNAL_FILE_BYTES - |first|)) && files(order[2].name) == Some(undo)
    requires ShowsUndoable(crc, files, order, 0, MAX_DISCOVERED_JOURNAL_BYTES, planId) && StandingUndo(crc, undo, planId)
    ensures ledger.items[0].projection.undoAvailable
  {
    var most := MAX_DISCOVERED_JOURNAL_BYTES;
    ZerosLeaveNothing(files, order, first);
    HiddenBehindZeros(crc, entries, files, maxJournals, most, order, all, ledger, 0, 1, 2, most - |first|, undo, planId);
  }

  lemma ZerosLeaveNothing(files: Files, order: seq<Key>, first: seq<u8>)
    requires |order| == 3 && |first| <= MAX_JOURNAL_FILE_BYTES
    requires files(order[0].name) == Some(first) && files(order[1].name) == Some(Zeros(MAX_JOURNAL_FILE_BYTES - |first|))
    ensures Left(files, order, 0, MAX_DISCOVERED_JOURNAL_BYTES) == MAX_DISCOVERED_JOURNAL_BYTES
    ensures Left(files, order, 1, MAX_DISCOVERED_JOURNAL_BYTES) == MAX_DISCOVERED_JOURNAL_BYTES - |first|
    ensures Left(files, order, 2, MAX_DISCOVERED_JOURNAL_BYTES) == 0
  {
  }

  /** After starting up, the next plan id is the first one behind those in the names of the journals, kept or left
      out, and those in the headers of the journals that were read. */
  method StartUp(ids: PlanIds, crc: Checksum, entries: seq<DirectoryEntry>, files: Files, maxJournals: nat, maxBytes: nat)
    returns (r: Result<RenameLedger, IssueError>, ghost order: seq<Key>, ghost latest: Option<u64>)
    requires ids.Valid()
    modifies ids
    ensures ids.Valid() && ids.issued == old(ids.issued)
    ensures KeepsGreatest((set key | key in order), Journals(entries), maxJournals)
    ensures Measured(Reader(crc)) && IsLatestFound(crc, entries, files, order, maxBytes, latest)
    ensures r.Failure? <==> latest == Some(U64_MAX)
    ensures r.Failure? ==> unchanged(ids)
    ensures r.Success? ==> ids.nextPlanId == FirstAbove(old(ids.nextPlanId), latest)
    ensures r.Success? ==> forall key :: key in Journals(entries) && key.planId.Some? ==> key.planId.value < ids.nextPlanId
    ensures r.Success? ==> forall j :: 0 <= j < |order| && HeaderId(crc, files, order, j, maxBytes).Some? ==>
                             HeaderId(crc, files, order, j, maxBytes).value < ids.nextPlanId
  {
    var ledger;
    ghost var all;
    ledger, order, all := Discover(crc, entries, files, maxJournals, maxBytes);
    assert KeepsGreatest((set key | key in order), Journals(entries), maxJournals) by { assert Unsealed(CatalogSeal, 0); }
    latest := ledger.latestPlanId;
    var initialized := ids.Initialize(ledger.latestPlanId);
    r := if initialized.Failure? then Failure(initialized.error) else Success(ledger);
  }
}
