/** Sequence numbers: sources are ordered, and each gets `start + step * ordinal` within its scope. */
module Sequence {
  import opened Primitives
  import opened Sorting
  import opened Execution

  datatype SequenceScope = AllSources | PerParent

  datatype SequenceOrder = BySource | ByNameAscending

  datatype SequenceAllocation = SequenceAllocation(scope: SequenceScope, order: SequenceOrder, start: u64, step: u64)

  // ---------------------------------------------------------------- order

  /** Names compare byte by byte, a prefix before what extends it. */
  predicate NameLess(a: Name, b: Name) {
    if a == [] then b != []
    else b != [] && (a[0] < b[0] || (a[0] == b[0] && NameLess(a[1..], b[1..])))
  }

  lemma {:induction false} NameLessIsIrreflexive(a: Name)
    ensures !NameLess(a, a)
  {
    if a != [] {
      NameLessIsIrreflexive(a[1..]);
    }
  }

  lemma {:induction false} NameLessIsTransitive(a: Name, b: Name, c: Name)
    requires NameLess(a, b) && NameLess(b, c)
    ensures NameLess(a, c)
  {
    if a != [] && a[0] == b[0] == c[0] {
      NameLessIsTransitive(a[1..], b[1..], c[1..]);
    }
  }

  lemma {:induction false} NameLessIsTotal(a: Name, b: Name)
    ensures NameLess(a, b) || NameLess(b, a) || a == b
  {
    if a != [] && b != [] && a[0] == b[0] {
      NameLessIsTotal(a[1..], b[1..]);
      assert a == [a[0]] + a[1..] && b == [b[0]] + b[1..];
    }
  }

  predicate Before(order: SequenceOrder, a: SourceSnapshot, b: SourceSnapshot) {
    match order
    case BySource => a.id < b.id
    case ByNameAscending => NameLess(a.nativeName, b.nativeName) || (a.nativeName == b.nativeName && a.id < b.id)
  }

  lemma BeforeIsTransitive(order: SequenceOrder, a: SourceSnapshot, b: SourceSnapshot, c: SourceSnapshot)
    requires Before(order, a, b) && Before(order, b, c)
    ensures Before(order, a, c)
  {
    if NameLess(a.nativeName, b.nativeName) && NameLess(b.nativeName, c.nativeName) {
      NameLessIsTransitive(a.nativeName, b.nativeName, c.nativeName);
    }
  }

  lemma BeforeIsAsymmetric(order: SequenceOrder, a: SourceSnapshot, b: SourceSnapshot)
    ensures !(Before(order, a, b) && Before(order, b, a))
  {
    NameLessIsIrreflexive(a.nativeName);
    if NameLess(a.nativeName, b.nativeName) && NameLess(b.nativeName, a.nativeName) {
      NameLessIsTransitive(a.nativeName, b.nativeName, a.nativeName);
    }
  }

  lemma BeforeIsTotal(order: SequenceOrder, a: SourceSnapshot, b: SourceSnapshot)
    ensures Before(order, a, b) || Before(order, b, a) || a.id == b.id
  {
    NameLessIsTotal(a.nativeName, b.nativeName);
  }

  type Indexed = (nat, SourceSnapshot)

  predicate PairLe(order: SequenceOrder, a: Indexed, b: Indexed) {
    !Before(order, b.1, a.1)
  }

  lemma PairLeIsPreorder(order: SequenceOrder)
    ensures Preorder((a: Indexed, b: Indexed) => PairLe(order, a, b))
  {
    var le := (a: Indexed, b: Indexed) => PairLe(order, a, b);
    forall x: Indexed, y: Indexed ensures le(x, y) || le(y, x) {
      BeforeIsAsymmetric(order, x.1, y.1);
    }
    forall x: Indexed, y: Indexed, z: Indexed | le(x, y) && le(y, z) ensures le(x, z) {
      NotBeforeIsTransitive(order, x.1, y.1, z.1);
    }
  }

  lemma NotBeforeIsTransitive(order: SequenceOrder, x: SourceSnapshot, y: SourceSnapshot, z: SourceSnapshot)
    requires !Before(order, y, x) && !Before(order, z, y)
    ensures !Before(order, z, x)
  {
    if Before(order, z, x) {
      NameLessIsTotal(x.nativeName, y.nativeName);
      NameLessIsTotal(y.nativeName, z.nativeName);
      if NameLess(x.nativeName, y.nativeName) && NameLess(z.nativeName, x.nativeName) {
        NameLessIsTransitive(z.nativeName, x.nativeName, y.nativeName);
      }
      if NameLess(y.nativeName, z.nativeName) && NameLess(z.nativeName, x.nativeName) {
        NameLessIsTransitive(y.nativeName, z.nativeName, x.nativeName);
      }
    }
  }

  function Enumerated(sources: seq<SourceSnapshot>): (r: seq<Indexed>)
    ensures |r| == |sources| && forall i :: 0 <= i < |r| ==> r[i] == (i, sources[i])
  {
    seq(|sources|, i requires 0 <= i < |sources| => (i, sources[i]))
  }

  function OrderedPairs(sources: seq<SourceSnapshot>, order: SequenceOrder): (r: seq<Indexed>)
    ensures |r| == |sources|
  {
    Sort(Enumerated(sources), (a: Indexed, b: Indexed) => PairLe(order, a, b))
  }

  function OrderedSourceIndices(sources: seq<SourceSnapshot>, order: SequenceOrder): (r: seq<nat>)
    ensures |r| == |sources| && forall k :: 0 <= k < |r| ==> r[k] == OrderedPairs(sources, order)[k].0
  {
    var pairs := OrderedPairs(sources, order);
    seq(|pairs|, k requires 0 <= k < |pairs| => pairs[k].0)
  }

  ghost predicate DistinctIds(sources: seq<SourceSnapshot>) {
    forall i, j :: 0 <= i < j < |sources| ==> sources[i].id != sources[j].id
  }

  ghost predicate IsPermutation(indices: seq<nat>, n: nat) {
    && |indices| == n && NoRepeats(indices)
    && (forall k :: 0 <= k < n ==> indices[k] < n)
    && (forall i :: 0 <= i < n ==> i in indices)
  }

  /** The sources in the given order. */
  function Arranged(sources: seq<SourceSnapshot>, indices: seq<nat>): (r: seq<SourceSnapshot>)
    requires forall k :: 0 <= k < |indices| ==> indices[k] < |sources|
    ensures |r| == |indices| && forall k :: 0 <= k < |r| ==> r[k] == sources[indices[k]]
  {
    seq(|indices|, k requires 0 <= k < |indices| => sources[indices[k]])
  }

  ghost predicate InOrder(arranged: seq<SourceSnapshot>, order: SequenceOrder) {
    forall j, k :: 0 <= j < k < |arranged| ==> Before(order, arranged[j], arranged[k])
  }

  /** The indices are all there, once... */
  lemma IndicesAreComplete(sources: seq<SourceSnapshot>, order: SequenceOrder)
    ensures IsPermutation(OrderedSourceIndices(sources, order), |sources|)
    ensures forall k :: 0 <= k < |sources| ==>
              OrderedPairs(sources, order)[k].1 == sources[OrderedSourceIndices(sources, order)[k]]
  {
    var all, pairs, indices := Enumerated(sources), OrderedPairs(sources, order), OrderedSourceIndices(sources, order);
    RearrangedWithoutRepeats(all, pairs);
    forall p: Indexed ensures p in pairs <==> p in all {
      assert p in multiset(pairs) <==> p in multiset(all);
    }
    forall k | 0 <= k < |pairs| ensures indices[k] < |sources| && pairs[k] == (indices[k], sources[indices[k]]) {
      assert pairs[k] in pairs;
    }
    forall i | 0 <= i < |sources| ensures i in indices {
      assert all[i] in all;
      var k :| 0 <= k < |pairs| && pairs[k] == all[i];
      assert indices[k] == i;
    }
    forall j, k | 0 <= j < k < |indices| ensures indices[j] != indices[k] {
      assert pairs[j] != pairs[k];
    }
  }

  /** ...and, as ids are distinct, strictly in order. */
  lemma IndicesAreOrdered(sources: seq<SourceSnapshot>, order: SequenceOrder)
    requires DistinctIds(sources)
    ensures IsPermutation(OrderedSourceIndices(sources, order), |sources|)
    ensures InOrder(Arranged(sources, OrderedSourceIndices(sources, order)), order)
  {
    var pairs, indices := OrderedPairs(sources, order), OrderedSourceIndices(sources, order);
    IndicesAreComplete(sources, order);
    var le := (a: Indexed, b: Indexed) => PairLe(order, a, b);
    assert SortedBy(pairs, le) by {
      PairLeIsPreorder(order);
      SortSorts(Enumerated(sources), le);
    }
    forall j, k | 0 <= j < k < |indices| ensures Before(order, sources[indices[j]], sources[indices[k]]) {
      assert indices[j] != indices[k];
      assert le(pairs[j], pairs[k]);
      BeforeIsTotal(order, pairs[j].1, pairs[k].1);
    }
  }

  /** The names agree up to `p`; there the first one ends or has the smaller byte. */
  ghost predicate TurnsAt(a: Name, b: Name, p: nat) {
    p <= |a| && p < |b| && a[..p] == b[..p] && (p == |a| || a[p] < b[p])
  }

  lemma {:induction false} LesserTurns(a: Name, b: Name) returns (p: nat)
    requires NameLess(a, b)
    ensures TurnsAt(a, b, p)
    decreases |a|
  {
    p := 0;
    if a != [] && a[0] == b[0] {
      var q := LesserTurns(a[1..], b[1..]);
      p := q + 1;
      assert a[..p] == [a[0]] + a[1..][..q] && b[..p] == [b[0]] + b[1..][..q];
    }
  }

  /** What the orders are: by id, or by the first byte in which the names differ, and then by id. */
  lemma OrdersTell(sources: seq<SourceSnapshot>, order: SequenceOrder, j: nat, k: nat)
    requires DistinctIds(sources) && j < k < |sources|
    ensures IsPermutation(OrderedSourceIndices(sources, order), |sources|)
    ensures var indices := OrderedSourceIndices(sources, order);
            var a, b := sources[indices[j]], sources[indices[k]];
            match order
            case BySource => a.id < b.id
            case ByNameAscending => (a.nativeName == b.nativeName && a.id < b.id) || exists p :: TurnsAt(a.nativeName, b.nativeName, p)
  {
    IndicesAreOrdered(sources, order);
    var arranged := Arranged(sources, OrderedSourceIndices(sources, order));
    assert Before(order, arranged[j], arranged[k]);
    if order.ByNameAscending? && NameLess(arranged[j].nativeName, arranged[k].nativeName) {
      var _ := LesserTurns(arranged[j].nativeName, arranged[k].nativeName);
    }
  }

  // ---------------------------------------------------------------- allocation

  function CheckedValue(allocation: SequenceAllocation, ordinal: nat): Option<u64> {
    var value := allocation.start + allocation.step * ordinal;
    if value <= U64_MAX then Some(value) else None
  }

  predicate SameScope(scope: SequenceScope, a: SourceSnapshot, b: SourceSnapshot) {
    scope == AllSources || a.parentId == b.parentId
  }

  /** How many of the first `k` arranged sources share the scope of `source`. */
  ghost function Preceding(arranged: seq<SourceSnapshot>, k: nat, scope: SequenceScope, source: SourceSnapshot): (r: nat)
    requires k <= |arranged|
    ensures r <= k && (scope == AllSources ==> r == k)
  {
    if k == 0 then 0
    else Preceding(arranged, k - 1, scope, source) + if SameScope(scope, arranged[k - 1], source) then 1 else 0
  }

  ghost predicate Allocated(arranged: seq<SourceSnapshot>, allocation: SequenceAllocation, k: nat, value: Option<u64>)
    requires k < |arranged|
  {
    forall x {:trigger UnsealedAt(AllocatedSeal, value, x)} :: UnsealedAt(AllocatedSeal, value, x) ==>
      value == CheckedValue(allocation, Preceding(arranged, k, allocation.scope, arranged[k]))
  }

  /** `ordinals` counts the first `k` arranged sources of every parent. */
  ghost predicate Counted(arranged: seq<SourceSnapshot>, k: nat, ordinals: map<u64, u64>)
    requires k <= |arranged|
  {
    forall source: SourceSnapshot {:trigger Preceding(arranged, k, PerParent, source)} ::
      Ordinal(ordinals, source.parentId) == Preceding(arranged, k, PerParent, source)
  }

  function Ordinal(ordinals: map<u64, u64>, parentId: u64): u64 {
    if parentId in ordinals then ordinals[parentId] else 0
  }

  lemma OneMoreCounted(arranged: seq<SourceSnapshot>, k: nat, ordinals: map<u64, u64>)
    requires k < |arranged| <= USIZE_MAX && Counted(arranged, k, ordinals)
    ensures var parent := arranged[k].parentId;
            && Ordinal(ordinals, parent) == Preceding(arranged, k, PerParent, arranged[k])
            && Ordinal(ordinals, parent) < U64_MAX
            && Counted(arranged, k + 1, ordinals[parent := Ordinal(ordinals, parent) + 1])
  {
    var parent := arranged[k].parentId;
    var ordinal := Ordinal(ordinals, parent);
    assert ordinal == Preceding(arranged, k, PerParent, arranged[k]);
    forall source: SourceSnapshot
      ensures Ordinal(ordinals[parent := ordinal + 1], source.parentId) == Preceding(arranged, k + 1, PerParent, source)
    {
      assert Ordinal(ordinals, source.parentId) == Preceding(arranged, k, PerParent, source);
    }
  }

  /** The ordinal of the next source, counted within its scope. */
  method NextOrdinal(scope: SequenceScope, source: SourceSnapshot, globalOrdinal: u64, parentOrdinals: map<u64, u64>,
                     ghost arranged: seq<SourceSnapshot>, ghost k: nat)
    returns (ordinal: u64, global': u64, parents': map<u64, u64>)
    requires k < |arranged| <= USIZE_MAX && source == arranged[k]
    requires if scope.AllSources? then globalOrdinal == k else Counted(arranged, k, parentOrdinals)
    ensures ordinal == Preceding(arranged, k, scope, source)
    ensures if scope.AllSources? then global' == k + 1 else Counted(arranged, k + 1, parents')
  {
    global', parents' := globalOrdinal, parentOrdinals;
    match scope {
      case AllSources =>
        ordinal := globalOrdinal;
        global' := SaturatingSucc(ordinal);
      case PerParent =>
        OneMoreCounted(arranged, k, parentOrdinals);
        ordinal := Ordinal(parentOrdinals, source.parentId);
        parents' := parentOrdinals[source.parentId := SaturatingSucc(ordinal)];
    }
  }

  /** A checked multiplication, then a checked addition. */
  method ValueFor(allocation: SequenceAllocation, ordinal: u64, ghost arranged: seq<SourceSnapshot>, ghost k: nat)
    returns (value: Option<u64>)
    requires k < |arranged| && ordinal == Preceding(arranged, k, allocation.scope, arranged[k])
    ensures Allocated(arranged, allocation, k, value)
  {
    var offset := allocation.step * ordinal;
    if offset > U64_MAX || allocation.start + offset > U64_MAX {
      return None;
    }
    return Some(allocation.start + offset);
  }

  method AllocateSequence(sources: seq<SourceSnapshot>, indices: seq<nat>, allocation: SequenceAllocation)
    returns (values: seq<Option<u64>>)
    requires IsPermutation(indices, |sources|) && |sources| <= USIZE_MAX
    ensures |values| == |sources|
    ensures forall k :: 0 <= k < |indices| ==> Allocated(Arranged(sources, indices), allocation, k, values[indices[k]])
  {
    var globalOrdinal: u64 := 0;
    var parentOrdinals: map<u64, u64> := map[];
    values := seq(|sources|, _ => None);
    ghost var arranged := Arranged(sources, indices);
    for k := 0 to |indices|
      invariant |values| == |sources|
      invariant if allocation.scope.AllSources? then globalOrdinal == k else Counted(arranged, k, parentOrdinals)
      invariant forall j :: 0 <= j < k ==> Allocated(arranged, allocation, j, values[indices[j]])
    {
      var ordinal: u64;
      ordinal, globalOrdinal, parentOrdinals :=
        NextOrdinal(allocation.scope, sources[indices[k]], globalOrdinal, parentOrdinals, arranged, k);
      var value := ValueFor(allocation, ordinal, arranged, k);
      values := values[indices[k] := value];
    }
  }

  // ---------------------------------------------------------------- what the values are

  /** The sources that come before `source` in its scope. */
  ghost function Predecessors(allocation: SequenceAllocation, sources: set<SourceSnapshot>, source: SourceSnapshot): set<SourceSnapshot> {
    set s | s in sources && SameScope(allocation.scope, s, source) && Before(allocation.order, s, source)
  }

  ghost function SetOf(sources: seq<SourceSnapshot>): set<SourceSnapshot> {
    set s | s in sources
  }

  ghost function Visited(arranged: seq<SourceSnapshot>, k: nat, scope: SequenceScope, source: SourceSnapshot): set<SourceSnapshot>
    requires k <= |arranged|
  {
    set s | s in arranged[..k] && SameScope(scope, s, source)
  }

  lemma {:induction false} VisitedIsCounted(arranged: seq<SourceSnapshot>, k: nat, scope: SequenceScope, source: SourceSnapshot)
    requires NoRepeats(arranged) && k <= |arranged|
    ensures |Visited(arranged, k, scope, source)| == Preceding(arranged, k, scope, source)
  {
    if k > 0 {
      VisitedIsCounted(arranged, k - 1, scope, source);
      VisitedGrows(arranged, k, scope, source);
    }
  }

  lemma VisitedGrows(arranged: seq<SourceSnapshot>, k: nat, scope: SequenceScope, source: SourceSnapshot)
    requires NoRepeats(arranged) && 0 < k <= |arranged|
    ensures |Visited(arranged, k, scope, source)|
              == |Visited(arranged, k - 1, scope, source)| + if SameScope(scope, arranged[k - 1], source) then 1 else 0
  {
    var before, last := Visited(arranged, k - 1, scope, source), arranged[k - 1];
    assert arranged[..k] == arranged[..k - 1] + [last];
    assert last !in before;
    assert Visited(arranged, k, scope, source) == if SameScope(scope, last, source) then before + {last} else before;
  }

  lemma VisitedArePredecessors(arranged: seq<SourceSnapshot>, allocation: SequenceAllocation, k: nat)
    requires InOrder(arranged, allocation.order) && k < |arranged|
    ensures Visited(arranged, k, allocation.scope, arranged[k]) == Predecessors(allocation, SetOf(arranged), arranged[k])
  {
    var source := arranged[k];
    forall s | s in arranged[..k] ensures Before(allocation.order, s, source) {
      var i :| 0 <= i < k && arranged[i] == s;
      assert Before(allocation.order, arranged[i], arranged[k]);
    }
    forall s | s in SetOf(arranged) ensures Before(allocation.order, s, source) ==> s in arranged[..k] {
      var j :| 0 <= j < |arranged| && arranged[j] == s;
      BeforeIsAsymmetric(allocation.order, s, source);
      if j < k {
        assert arranged[..k][j] == s;
      } else if j > k {
        assert Before(allocation.order, arranged[k], arranged[j]);
      }
    }
  }

  /** The reference: a source's value is `start + step * (number of sources before it in its scope)`, or
      absent exactly when that exceeds 64 bits. The order of the input plays no part. */
  lemma ValueIsByRank(sources: seq<SourceSnapshot>, allocation: SequenceAllocation, k: nat, value: Option<u64>)
    requires DistinctIds(sources) && k < |sources|
    ensures var indices := OrderedSourceIndices(sources, allocation.order);
            && IsPermutation(indices, |sources|)
            && (Allocated(Arranged(sources, indices), allocation, k, value) <==>
                value == CheckedValue(allocation, |Predecessors(allocation, SetOf(sources), sources[indices[k]])|))
  {
    var indices := OrderedSourceIndices(sources, allocation.order);
    IndicesAreOrdered(sources, allocation.order);
    var arranged := Arranged(sources, indices);
    forall i, j | 0 <= i < j < |arranged| ensures arranged[i] != arranged[j] {
      assert indices[i] != indices[j];
    }
    assert UnsealedAt(AllocatedSeal, value, 0);
    ArrangedIsTheSameSet(sources, indices);
    VisitedIsCounted(arranged, k, allocation.scope, arranged[k]);
    VisitedArePredecessors(arranged, allocation, k);
  }

  /** The same sources in any other order give each source the same value. */
  lemma InputOrderIsIrrelevant(a: seq<SourceSnapshot>, b: seq<SourceSnapshot>, allocation: SequenceAllocation,
                               j: nat, k: nat, valueInA: Option<u64>, valueInB: Option<u64>)
    requires DistinctIds(a) && DistinctIds(b) && SetOf(a) == SetOf(b) && j < |a| && k < |b|
    requires var inA, inB := OrderedSourceIndices(a, allocation.order), OrderedSourceIndices(b, allocation.order);
             && IsPermutation(inA, |a|) && IsPermutation(inB, |b|) && a[inA[j]] == b[inB[k]]
             && Allocated(Arranged(a, inA), allocation, j, valueInA) && Allocated(Arranged(b, inB), allocation, k, valueInB)
    ensures valueInA == valueInB
  {
    ValueIsByRank(a, allocation, j, valueInA);
    ValueIsByRank(b, allocation, k, valueInB);
  }

  lemma ArrangedIsTheSameSet(sources: seq<SourceSnapshot>, indices: seq<nat>)
    requires IsPermutation(indices, |sources|)
    ensures SetOf(Arranged(sources, indices)) == SetOf(sources)
  {
    var arranged := Arranged(sources, indices);
    forall s | s in sources ensures s in arranged {
      var i :| 0 <= i < |sources| && sources[i] == s;
      assert i in indices;
      var k :| 0 <= k < |indices| && indices[k] == i;
      assert arranged[k] == s;
    }
  }

  /** Within one scope values ascend in order, so no two sources share one. */
  lemma ValuesAreDistinct(sources: set<SourceSnapshot>, allocation: SequenceAllocation, a: SourceSnapshot, b: SourceSnapshot)
    requires allocation.step > 0 && a in sources && b in sources && SameScope(allocation.scope, a, b)
    requires Before(allocation.order, a, b)
    ensures var first := CheckedValue(allocation, |Predecessors(allocation, sources, a)|);
            var second := CheckedValue(allocation, |Predecessors(allocation, sources, b)|);
            second.Some? ==> first.Some? && first.value < second.value
  {
    var before, after := Predecessors(allocation, sources, a), Predecessors(allocation, sources, b);
    BeforeIsAsymmetric(allocation.order, a, a);
    forall s | s in before ensures s in after {
      BeforeIsTransitive(allocation.order, s, a, b);
    }
    assert before + {a} <= after;
    assert after == (before + {a}) + (after - (before + {a}));
    StepsGrow(allocation.step, |before|, |after|);
  }

  lemma StepsGrow(step: nat, m: nat, n: nat)
    requires step > 0 && m < n
    ensures step * m < step * n
  {
    assert step * n == step * m + step * (n - m);
  }
}
