/** The journal catalog and the plan ids: file names carry ids, a bounded scan keeps the newest journals,
    and no id is ever issued twice. */
module Catalog {
  import opened Primitives
  import opened Execution
  import opened Hex
  import opened Sequence

  // ---------------------------------------------------------------- file names

  datatype JournalKind = PlanJournal | UndoJournal

  function JournalName(kind: JournalKind, planId: u64): Name {
    Ascii(if kind.PlanJournal? then "plan-" else "undo-") + Padded(planId, 16) + Ascii(".rwj")
  }

  function PlanIdFromName(name: Name): Option<u64> {
    if |name| != 25 || (name[..5] != Ascii("plan-") && name[..5] != Ascii("undo-")) || name[21..] != Ascii(".rwj") then None
    else
      var id := Parse(name[5..21]);
      ParseIsBounded(name[5..21]);
      SixteenDigits();
      if id.Some? then Some(id.value) else None
  }

  /** An id goes into a file name and comes back. */
  lemma NamesCarryIds(kind: JournalKind, planId: u64)
    ensures PlanIdFromName(JournalName(kind, planId)) == Some(planId)
  {
    var name := JournalName(kind, planId);
    var prefix := Ascii(if kind.PlanJournal? then "plan-" else "undo-");
    assert |prefix| == 5;
    assert name[..5] == prefix && name[5..21] == Padded(planId, 16) && name[21..] == Ascii(".rwj");
    SixteenDigits();
    ParsePadded(planId, 16);
  }

  // ---------------------------------------------------------------- the bounded scan

  /** Unnamed journals come before named ones, and those in the order of their ids. */
  datatype Key = Key(planId: Option<u64>, name: Name)

  function KeyOf(name: Name): Key { Key(PlanIdFromName(name), name) }

  predicate IdLess(a: Option<u64>, b: Option<u64>) {
    b.Some? && (a.None? || a.value < b.value)
  }

  predicate KeyLess(a: Key, b: Key) {
    IdLess(a.planId, b.planId) || (a.planId == b.planId && NameLess(a.name, b.name))
  }

  lemma KeyLessIsTransitive(a: Key, b: Key, c: Key)
    requires KeyLess(a, b) && KeyLess(b, c)
    ensures KeyLess(a, c)
  {
    if NameLess(a.name, b.name) && NameLess(b.name, c.name) {
      NameLessIsTransitive(a.name, b.name, c.name);
    }
  }

  lemma KeyLessIsTotal(a: Key, b: Key)
    ensures KeyLess(a, b) || KeyLess(b, a) || a == b
    ensures !(KeyLess(a, b) && KeyLess(b, a))
  {
    NameLessIsTotal(a.name, b.name);
    NameLessIsIrreflexive(a.name);
    if NameLess(a.name, b.name) && NameLess(b.name, a.name) {
      NameLessIsTransitive(a.name, b.name, a.name);
    }
  }

  predicate IsFirst(key: Key, keys: set<Key>) {
    key in keys && forall other :: other in keys && other != key ==> KeyLess(key, other)
  }

  lemma {:induction false} FirstExists(keys: set<Key>)
    requires keys != {}
    ensures exists key :: IsFirst(key, keys)
    decreases |keys|
  {
    var key :| key in keys;
    var rest := keys - {key};
    assert keys == rest + {key};
    if rest == {} {
      assert IsFirst(key, keys);
    } else {
      FirstExists(rest);
      var first :| IsFirst(first, rest);
      KeyLessIsTotal(key, first);
      if KeyLess(key, first) {
        forall other | other in keys && other != key ensures KeyLess(key, other) {
          if other != first {
            KeyLessIsTransitive(key, first, other);
          }
        }
        assert IsFirst(key, keys);
      } else {
        assert IsFirst(first, keys);
      }
    }
  }

  /** `kept` are the greatest of `all`, as many as there may be. */
  ghost predicate KeepsGreatest(kept: set<Key>, all: set<Key>, most: nat) {
    && kept <= all
    && |kept| == (if |all| <= most then |all| else most)
    && forall x, y :: x in kept && y in all - kept ==> KeyLess(y, x)
  }

  /** Only one selection keeps the greatest: the order of the directory plays no part. */
  lemma SelectionIsUnique(a: set<Key>, b: set<Key>, all: set<Key>, most: nat)
    requires KeepsGreatest(a, all, most) && KeepsGreatest(b, all, most)
    ensures a == b
  {
    NoneIsBetter(a, b, all, most);
    NoneIsBetter(b, a, all, most);
  }

  lemma NoneIsBetter(a: set<Key>, b: set<Key>, all: set<Key>, most: nat)
    requires KeepsGreatest(a, all, most) && KeepsGreatest(b, all, most)
    ensures a <= b
  {
    if !(a <= b) {
      var x :| x in a && x !in b;
      if b <= a {
        SmallerSubset(b, a);
      } else {
        var y :| y in b && y !in a;
        KeyLessIsTotal(x, y);
      }
    }
  }

  lemma SmallerSubset<T>(a: set<T>, b: set<T>)
    requires a < b
    ensures |a| < |b|
  {
    assert b == a + (b - a);
    var x :| x in b - a;
    assert |b - a| > 0;
  }

  /** One more journal: it is taken in, and the least one goes if there are too many. */
  lemma OneMoreKey(kept: set<Key>, all: set<Key>, most: nat, key: Key, first: Key)
    requires KeepsGreatest(kept, all, most) && IsFirst(first, kept + {key})
    ensures |kept + {key}| <= most ==> KeepsGreatest(kept + {key}, all + {key}, most)
    ensures |kept + {key}| > most ==> KeepsGreatest(kept + {key} - {first}, all + {key}, most)
  {
    var wider, every := kept + {key}, all + {key};
    KeptByCount(kept, all, most);
    if key in all {
      assert every == all;
      if key !in kept {
        forall x | x in kept ensures KeyLess(key, x) {
        }
        KeyLessIsTotal(key, first);
        assert first == key;
        assert wider - {first} == kept;
      } else {
        assert wider == kept;
      }
    } else if |wider| > most {
      var after := wider - {first};
      forall x, y | x in after && y in every - after ensures KeyLess(y, x) {
        if y != first {
          assert y in all - kept;
          if x == key {
            assert first in kept;
            KeyLessIsTransitive(y, first, x);
          }
        }
      }
    }
  }

  lemma KeptByCount(kept: set<Key>, all: set<Key>, most: nat)
    requires KeepsGreatest(kept, all, most)
    ensures |all| <= most ==> kept == all
  {
    if |all| <= most && kept != all {
      SmallerSubset(kept, all);
    }
  }

  datatype DirectoryEntry = DirectoryEntry(name: Name, isJournal: bool)

  ghost function Journals(entries: seq<DirectoryEntry>): set<Key> {
    set e | e in entries && e.isJournal :: KeyOf(e.name)
  }

  /** The greatest id that any journal name carries. */
  ghost predicate IsLatest(latest: Option<u64>, keys: set<Key>) {
    && (forall key :: key in keys && key.planId.Some? ==> latest.Some? && key.planId.value <= latest.value)
    && (latest.Some? ==> exists key :: key in keys && key.planId == latest)
  }

  /** Reads the directory once, holding at most one journal more than it may keep. */
  method BoundedJournalCandidates(entries: seq<DirectoryEntry>, maxJournals: nat)
    returns (kept: set<Key>, limited: bool, latest: Option<u64>)
    ensures KeepsGreatest(kept, Journals(entries), maxJournals)
    ensures limited <==> |Journals(entries)| > maxJournals
    ensures IsLatest(latest, Journals(entries))
  {
    kept, limited, latest := {}, false, None;
    assert Journals(entries[..0]) == {};
    for i := 0 to |entries|
      invariant KeepsGreatest(kept, Journals(entries[..i]), maxJournals)
      invariant limited <==> |Journals(entries[..i])| > maxJournals
      invariant IsLatest(latest, Journals(entries[..i]))
    {
      OneMoreEntry(entries, i);
      if !entries[i].isJournal {
        continue;
      }
      var key := KeyOf(entries[i].name);
      ghost var all := Journals(entries[..i]);
      LatestOfMore(latest, all, key);
      latest := if key.planId.Some? && (latest.None? || latest.value < key.planId.value) then key.planId else latest;
      LimitOfMore(kept, all, maxJournals, key);
      ghost var was := kept;
      kept := kept + {key};
      FirstExists(kept);
      var first :| IsFirst(first, kept);
      OneMoreKey(was, all, maxJournals, key, first);
      if |kept| > maxJournals {
        limited := true;
        kept := kept - {first};
      }
    }
    assert entries[..|entries|] == entries;
  }

  lemma OneMoreEntry(entries: seq<DirectoryEntry>, i: nat)
    requires i < |entries|
    ensures Journals(entries[..i + 1])
              == Journals(entries[..i]) + if entries[i].isJournal then {KeyOf(entries[i].name)} else {}
  {
    assert entries[..i + 1] == entries[..i] + [entries[i]];
  }

  lemma LatestOfMore(latest: Option<u64>, keys: set<Key>, key: Key)
    requires IsLatest(latest, keys)
    ensures IsLatest(if key.planId.Some? && (latest.None? || latest.value < key.planId.value) then key.planId else latest, keys + {key})
  {
    if latest.Some? {
      var k :| k in keys && k.planId == latest;
      assert k in keys + {key};
    }
    assert key in keys + {key};
  }

  lemma LimitOfMore(kept: set<Key>, all: set<Key>, most: nat, key: Key)
    requires KeepsGreatest(kept, all, most)
    ensures |all + {key}| > most <==> |all| > most || |kept + {key}| > most
  {
    KeptByCount(kept, all, most);
    assert key in all ==> all + {key} == all;
    assert key in kept ==> kept + {key} == kept;
    assert |all + {key}| >= |all| by { assert all + {key} == all + ({key} - all); }
  }

  // ---------------------------------------------------------------- issuing ids

  datatype IssueError = PlanSequenceExhausted

  /** The first id that is neither before `next` nor in the ledger. */
  ghost function FirstAbove(next: u64, latestInLedger: Option<u64>): nat {
    if latestInLedger.Some? && next <= latestInLedger.value then latestInLedger.value + 1 else next
  }

  /** The application's plan ids: read, checked and bumped one operation at a time. */
  class PlanIds {
    var nextPlanId: u64
    // Every id issued so far, in order.
    ghost var issued: seq<u64>
    // The greatest id that initialization has found in the ledger.
    ghost var discovered: u64

    ghost predicate Valid()
      reads this
    {
      && (forall i, j :: 0 <= i < j < |issued| ==> issued[i] < issued[j])
      && (forall i :: 0 <= i < |issued| ==> issued[i] < nextPlanId)
      && discovered < nextPlanId
    }

    constructor ()
      ensures Valid() && issued == [] && discovered == 0 && nextPlanId == 1
    {
      nextPlanId, issued, discovered := 1, [], 0;
    }

    /** From here on every id exceeds those in the ledger. */
    method Initialize(latestInLedger: Option<u64>) returns (r: Result<(), IssueError>)
      requires Valid()
      modifies this
      ensures Valid() && issued == old(issued)
      ensures r.Failure? <==> latestInLedger == Some(U64_MAX)
      ensures r.Failure? ==> unchanged(this)
      ensures r.Success? ==> nextPlanId == FirstAbove(old(nextPlanId), latestInLedger) && discovered >= old(discovered)
      ensures r.Success? && latestInLedger.Some? ==> latestInLedger.value <= discovered < nextPlanId
    {
      var latest: u64 := if latestInLedger.Some? then latestInLedger.value else 0;
      if latest == U64_MAX {
        return Failure(PlanSequenceExhausted);
      }
      if nextPlanId < latest + 1 {
        nextPlanId := latest + 1;
      }
      discovered := if latest > discovered then latest else discovered;
      return Success(());
    }

    /** The id of a new preview: greater than every id before it and than every id discovered. */
    method IssuePlanId() returns (r: Result<u64, IssueError>)
      requires Valid()
      modifies this
      ensures Valid() && discovered == old(discovered)
      ensures r.Failure? <==> old(nextPlanId) == U64_MAX
      ensures r.Failure? ==> unchanged(this)
      ensures r.Success? ==> r.value == old(nextPlanId) && nextPlanId == r.value + 1
      ensures r.Success? ==> issued == old(issued) + [r.value] && r.value > discovered
      ensures r.Success? ==> forall id :: id in old(issued) ==> id < r.value
    {
      var value := nextPlanId;
      if value == U64_MAX {
        return Failure(PlanSequenceExhausted);
      }
      nextPlanId := value + 1;
      issued := issued + [value];
      return Success(value);
    }

    /** The id of an undo: it exceeds what the ledger holds by now as well. */
    method AllocateTransactionPlanId(latestInLedger: Option<u64>) returns (r: Result<u64, IssueError>)
      requires Valid()
      modifies this
      ensures Valid() && discovered == old(discovered)
      ensures r.Failure? ==> unchanged(this)
      ensures r.Failure? <==> latestInLedger == Some(U64_MAX) || old(nextPlanId) == U64_MAX || latestInLedger == Some(U64_MAX - 1)
      ensures r.Success? ==> r.value == FirstAbove(old(nextPlanId), latestInLedger) && nextPlanId == r.value + 1
      ensures r.Success? ==> issued == old(issued) + [r.value] && r.value > discovered
      ensures r.Success? ==> forall id :: id in old(issued) ==> id < r.value
      ensures r.Success? && latestInLedger.Some? ==> latestInLedger.value < r.value
    {
      var latest: u64 := if latestInLedger.Some? then latestInLedger.value else 0;
      if latest == U64_MAX {
        return Failure(PlanSequenceExhausted);
      }
      var value := if nextPlanId < latest + 1 then latest + 1 else nextPlanId;
      if value == U64_MAX {
        return Failure(PlanSequenceExhausted);
      }
      nextPlanId := value + 1;
      issued := issued + [value];
      return Success(value);
    }
  }
}
