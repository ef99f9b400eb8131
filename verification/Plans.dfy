/** How a frozen plan is put together: entries in the order of their ids, and the schedule over them. */
module Plans {
  import opened Primitives
  import opened Sorting
  import opened Execution
  import opened Transaction

  function SourceIds(entries: seq<FrozenEntry>): (r: seq<u64>)
    ensures |r| == |entries| && forall i :: 0 <= i < |r| ==> r[i] == entries[i].journalEntry.sourceId
  {
    seq(|entries|, i requires 0 <= i < |entries| => entries[i].journalEntry.sourceId)
  }

  /** Entries in the order of their ids, and the two passes over them. */
  ghost predicate Ordered(plan: PlanView) {
    StrictlyAscending(SourceIds(plan.entries)) && IsTwoPhase(plan.schedule, SourceIds(plan.entries))
  }

  /** With ascending ids every search finds the one entry there is, a binary search included. */
  lemma {:induction false} EntryIsUnique(entries: seq<FrozenEntry>, i: nat)
    requires StrictlyAscending(SourceIds(entries)) && i < |entries|
    ensures FindEntry(entries, entries[i].journalEntry.sourceId) == Some(entries[i])
  {
    var ids := SourceIds(entries);
    if i > 0 {
      assert ids[0] < ids[i];
      assert SourceIds(entries[1..]) == ids[1..];
      EntryIsUnique(entries[1..], i - 1);
    }
  }

  predicate EntryLe(a: FrozenEntry, b: FrozenEntry) {
    a.journalEntry.sourceId <= b.journalEntry.sourceId
  }

  lemma EntryLeIsPreorder()
    ensures Preorder(EntryLe)
  {
  }

  ghost predicate SameEntries(a: seq<FrozenEntry>, b: seq<FrozenEntry>) {
    multiset(a) == multiset(b)
  }

  lemma SameEntriesSameIds(a: seq<FrozenEntry>, b: seq<FrozenEntry>)
    requires SameEntries(a, b)
    ensures |a| == |b| && forall e :: e in a <==> e in b
  {
    assert |multiset(a)| == |multiset(b)|;
    forall e ensures e in a <==> e in b {
      assert e in multiset(a) <==> e in multiset(b);
    }
  }

  /** The schedule builder leaves ids that are already in order as they are. */
  lemma ScheduleFollowsIds(steps: seq<ExecutionStep>, ids: seq<u64>)
    requires IsScheduleOf(steps, ids) && SortedBy(ids, IdLe)
    ensures StrictlyAscending(ids) && IsTwoPhase(steps, ids)
  {
    var ordered: seq<u64> :| StrictlyAscending(ordered) && multiset(ordered) == multiset(ids) && IsTwoPhase(steps, ordered);
    IdLeTotal();
    SortedIsCanonical(ordered, ids, IdLe);
  }

  /** Sorts the entries and schedules them; it fails only where the schedule builder does. */
  method FromEntries(planId: u64, sourceGeneration: u64, unordered: seq<FrozenEntry>)
    returns (r: Result<FrozenExecutionPlan, ScheduleError>)
    ensures r.Success? <==> unordered != [] && DuplicateFree(SourceIds(unordered)) && 2 * |unordered| <= USIZE_MAX
    ensures r.Failure? ==> CannotSchedule(SourceIds(unordered), r.error)
    ensures r.Success? ==> r.value.planId == planId && r.value.sourceGeneration == sourceGeneration
    ensures r.Success? ==> SameEntries(r.value.entries, unordered) && Ordered(r.value.View()) && r.value.View().Indexed()
  {
    var entries := Sort(unordered, EntryLe);
    SortedIds(unordered);
    SameEntriesSameIds(entries, unordered);
    var ids := SourceIds(entries);
    var schedule := BuildTwoPhaseSchedule(ids);
    if schedule.Failure? {
      return Failure(schedule.error);
    }
    ScheduleFollowsIds(schedule.value, ids);
    return Success(FrozenExecutionPlan(planId, sourceGeneration, entries, schedule.value));
  }

  lemma SortedIds(unordered: seq<FrozenEntry>)
    ensures var entries := Sort(unordered, EntryLe);
            SortedBy(SourceIds(entries), IdLe) && multiset(SourceIds(entries)) == multiset(SourceIds(unordered))
  {
    EntryLeIsPreorder();
    SortSorts(unordered, EntryLe);
    SortKeepsIds(unordered);
  }

  lemma IdsOfCons(e: FrozenEntry, s: seq<FrozenEntry>)
    ensures multiset(SourceIds([e] + s)) == multiset(SourceIds(s)) + multiset{e.journalEntry.sourceId}
  {
    assert SourceIds([e] + s) == [e.journalEntry.sourceId] + SourceIds(s);
  }

  lemma {:induction false} InsertAddsId(e: FrozenEntry, s: seq<FrozenEntry>)
    ensures multiset(SourceIds(Insert(e, s, EntryLe))) == multiset(SourceIds(s)) + multiset{e.journalEntry.sourceId}
  {
    if s == [] {
      assert [e] + s == [e];
      IdsOfCons(e, s);
    } else if EntryLe(e, s[0]) {
      IdsOfCons(e, s);
    } else {
      var rest := s[1..];
      assert s == [s[0]] + rest;
      InsertAddsId(e, rest);
      IdsOfCons(s[0], Insert(e, rest, EntryLe));
      IdsOfCons(s[0], rest);
    }
  }

  lemma {:induction false} SortKeepsIds(s: seq<FrozenEntry>)
    ensures multiset(SourceIds(Sort(s, EntryLe))) == multiset(SourceIds(s))
  {
    if s != [] {
      var rest := s[1..];
      SortKeepsIds(rest);
      InsertAddsId(s[0], Sort(rest, EntryLe));
      assert multiset(SourceIds(s)) == multiset(SourceIds(rest)) + multiset{s[0].journalEntry.sourceId} by {
        IdsOfCons(s[0], rest);
        assert s == [s[0]] + rest;
      }
    }
  }
}
