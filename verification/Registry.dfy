/** The registry of selected sources: mutually inverse maps, fresh ids, and a cached snapshot that is
    stamped with the generation of its contents. */
module Registry {
  import opened Primitives
  import opened Sorting
  import opened Execution
  import opened Machine

  datatype Candidate = Candidate(path: Location, fingerprint: SourceFingerprint)

  datatype PreparedSource = PreparedSource(
    path: Location, fingerprint: SourceFingerprint,
    identity: Option<ExecutionIdentity>, parentIdentity: Option<ExecutionIdentity>)

  datatype AdmissionError = TooManySources | Unavailable(path: NativePath) | MissingFileName(path: NativePath)

  /** What admission reads from the disk: canonical paths, fingerprints and identities. */
  datatype Disk = Disk(
    normalize: NativePath -> Result<Candidate, AdmissionError>,
    fingerprint: Location -> Option<SourceFingerprint>,
    identity: Location -> Option<ExecutionIdentity>,
    parentIdentity: NativePath -> Option<ExecutionIdentity>,
    pathLe: (Location, Location) -> bool,
    pathOf: Location -> NativePath)

  datatype PlanningSnapshot = PlanningSnapshot(
    paths: map<u64, Location>, snapshots: seq<SourceSnapshot>, parentIds: map<NativePath, u64>, generation: u64)

  function InIdOrder(snapshots: map<u64, SourceSnapshot>): (r: seq<SourceSnapshot>)
    ensures |r| == |Ascending(snapshots.Keys)|
    ensures forall i :: 0 <= i < |r| ==> Ascending(snapshots.Keys)[i] in snapshots && r[i] == snapshots[Ascending(snapshots.Keys)[i]]
  {
    var ids := Ascending(snapshots.Keys);
    seq(|ids|, i requires 0 <= i < |ids| =>
      assert ids[i] in ids; snapshots[ids[i]])
  }

  // ---------------------------------------------------------------- candidates

  /** Keeps the first of neighbours with the same path. */
  function DropRepeats(candidates: seq<Candidate>): (r: seq<Candidate>)
    ensures |r| <= |candidates|
    ensures r != [] ==> candidates != [] && r[|r| - 1].path == candidates[|candidates| - 1].path
    ensures r == [] ==> candidates == []
    ensures forall c :: c in r ==> c in candidates
  {
    if candidates == [] then []
    else
      var front, last := DropRepeats(candidates[..|candidates| - 1]), candidates[|candidates| - 1];
      if front != [] && front[|front| - 1].path == last.path then front else front + [last]
  }

  ghost predicate PathsApart(candidates: seq<Candidate>) {
    forall i, j :: 0 <= i < j < |candidates| ==> candidates[i].path != candidates[j].path
  }

  ghost predicate PathsSorted(le: (Location, Location) -> bool, candidates: seq<Candidate>) {
    forall i, j :: 0 <= i < j < |candidates| ==> le(candidates[i].path, candidates[j].path)
  }

  lemma Between<T(!new)>(le: (T, T) -> bool, a: T, b: T, c: T)
    requires TotalOrder(le) && (a == b || le(a, b)) && le(b, c) && b != c
    ensures le(a, c) && a != c
  {
  }

  /** Between sorted candidates equal paths are neighbours: dropping repeats leaves each path once... */
  lemma {:induction false} RepeatsAreNeighbours(le: (Location, Location) -> bool, candidates: seq<Candidate>)
    requires TotalOrder(le) && PathsSorted(le, candidates)
    ensures PathsApart(DropRepeats(candidates)) && PathsSorted(le, DropRepeats(candidates))
  {
    if |candidates| > 1 {
      var before, last := candidates[..|candidates| - 1], candidates[|candidates| - 1];
      RepeatsAreNeighbours(le, before);
      var front := DropRepeats(before);
      var end := front[|front| - 1].path;
      assert le(end, last.path) by { assert end == candidates[|candidates| - 2].path; }
      if end != last.path {
        forall i | 0 <= i < |front| ensures le(front[i].path, last.path) && front[i].path != last.path {
          Between(le, front[i].path, end, last.path);
        }
      }
    }
  }

  /** ...and leaves no path out. */
  lemma {:induction false} RepeatsLoseNoPath(candidates: seq<Candidate>, c: Candidate)
    requires c in candidates
    ensures exists d :: d in DropRepeats(candidates) && d.path == c.path
  {
    var before, last := candidates[..|candidates| - 1], candidates[|candidates| - 1];
    var r := DropRepeats(candidates);
    assert candidates == before + [last];
    if c == last {
      assert r[|r| - 1] in r && r[|r| - 1].path == last.path;
    } else {
      RepeatsLoseNoPath(before, c);
      var d :| d in DropRepeats(before) && d.path == c.path;
      assert d in r;
    }
  }

  // ---------------------------------------------------------------- coherence

  /** Everything that the registry knows about the selected sources. */
  datatype Contents = Contents(
    paths: map<u64, Location>, snapshots: map<u64, SourceSnapshot>,
    executionIdentities: map<u64, ExecutionIdentity>, parentExecutionIdentities: map<NativePath, ExecutionIdentity>,
    sourceIds: map<Location, u64>, parentIds: map<NativePath, u64>)

  ghost predicate MutuallyInverse(paths: map<u64, Location>, sourceIds: map<Location, u64>) {
    && (forall id :: id in paths ==> paths[id] in sourceIds && sourceIds[paths[id]] == id)
    && (forall path :: path in sourceIds ==> sourceIds[path] in paths && paths[sourceIds[path]] == path)
  }

  ghost predicate Describes(c: Contents, id: u64)
    requires id in c.paths && id in c.snapshots
  {
    var snapshot, path := c.snapshots[id], c.paths[id];
    && snapshot.id == id && snapshot.nativeName == path.name && snapshot.fingerprint.Some?
    && path.parent in c.parentIds && c.parentIds[path.parent] == snapshot.parentId
  }

  ghost predicate Linked(c: Contents, nextSourceId: u64, nextParentId: u64) {
    forall x {:trigger UnsealedAt(LinkedSeal, c, x)} :: UnsealedAt(LinkedSeal, c, x) ==> IsLinked(c, nextSourceId, nextParentId)
  }

  ghost predicate IsLinked(c: Contents, nextSourceId: u64, nextParentId: u64) {
    && MutuallyInverse(c.paths, c.sourceIds)
    && c.snapshots.Keys == c.paths.Keys && c.executionIdentities.Keys <= c.paths.Keys
    && c.parentExecutionIdentities.Keys <= c.parentIds.Keys
    && (forall id :: id in c.paths ==> id < nextSourceId && Describes(c, id))
    && ParentsNumbered(c.parentIds, nextParentId)
  }

  ghost predicate ParentsNumbered(parentIds: map<NativePath, u64>, nextParentId: u64) {
    && (forall p :: p in parentIds ==> parentIds[p] < nextParentId)
    && (forall p, q :: p in parentIds && q in parentIds && parentIds[p] == parentIds[q] ==> p == q)
  }

  ghost predicate IsLiveParent(c: Contents, parent: NativePath) {
    exists id :: id in c.paths && c.paths[id].parent == parent
  }

  /** The maps agree with each other, and parents are known exactly while a source lives there. */
  ghost predicate Coherent(c: Contents, nextSourceId: u64, nextParentId: u64) {
    forall x {:trigger UnsealedAt(CoherentSeal, c, x)} :: UnsealedAt(CoherentSeal, c, x) ==> IsCoherent(c, nextSourceId, nextParentId)
  }

  ghost predicate IsCoherent(c: Contents, nextSourceId: u64, nextParentId: u64) {
    Linked(c, nextSourceId, nextParentId) && forall p :: p in c.parentIds ==> IsLiveParent(c, p)
  }

  /** One more source: the parent keeps its id or gets the next one. */
  ghost function Admitted(c: Contents, source: PreparedSource, id: u64, nextParentId: u64): Contents {
    var parent := source.path.parent;
    var parentId := if parent in c.parentIds then c.parentIds[parent] else nextParentId;
    Contents(
      c.paths[id := source.path],
      c.snapshots[id := SourceSnapshot(id, parentId, source.path.name, Some(source.fingerprint))],
      if source.identity.Some? then c.executionIdentities[id := source.identity.value] else c.executionIdentities,
      if source.parentIdentity.Some? then c.parentExecutionIdentities[parent := source.parentIdentity.value]
      else c.parentExecutionIdentities,
      c.sourceIds[source.path := id],
      if parent in c.parentIds then c.parentIds else c.parentIds[parent := nextParentId])
  }

  lemma AdmissionKeepsCoherence(c: Contents, source: PreparedSource, id: u64, nextParentId: u64)
    requires Coherent(c, id, nextParentId) && source.path !in c.sourceIds && id < U64_MAX && nextParentId < U64_MAX
    ensures Coherent(Admitted(c, source, id, nextParentId), id + 1,
                     if source.path.parent in c.parentIds then nextParentId else nextParentId + 1)
    ensures id !in c.paths && id !in c.snapshots && id !in c.executionIdentities
  {
    assert UnsealedAt(CoherentSeal, c, 0);
    AdmissionKeepsLinks(c, source, id, nextParentId);
    var after := Admitted(c, source, id, nextParentId);
    forall p | p in after.parentIds ensures IsLiveParent(after, p) {
      if p == source.path.parent {
        assert after.paths[id].parent == p;
      } else {
        assert IsLiveParent(c, p);
        var live :| live in c.paths && c.paths[live].parent == p;
        assert live != id && after.paths[live].parent == p;
      }
    }
  }

  lemma AdmissionKeepsLinks(c: Contents, source: PreparedSource, id: u64, nextParentId: u64)
    requires Linked(c, id, nextParentId) && source.path !in c.sourceIds && id < U64_MAX && nextParentId < U64_MAX
    ensures Linked(Admitted(c, source, id, nextParentId), id + 1,
                   if source.path.parent in c.parentIds then nextParentId else nextParentId + 1)
    ensures id !in c.paths && id !in c.snapshots && id !in c.executionIdentities
  {
    assert UnsealedAt(LinkedSeal, c, 0);
    InversesExtend(c.paths, c.sourceIds, id, source.path);
    ParentsExtend(c.parentIds, source.path.parent, nextParentId);
    DescriptionsExtend(c, source, id, nextParentId);
  }

  lemma DescriptionsExtend(c: Contents, source: PreparedSource, id: u64, nextParentId: u64)
    requires c.snapshots.Keys == c.paths.Keys && forall other :: other in c.paths ==> other < id && Describes(c, other)
    requires nextParentId < U64_MAX
    ensures var after := Admitted(c, source, id, nextParentId);
            after.snapshots.Keys == after.paths.Keys && forall other :: other in after.paths ==> other < id + 1 && Describes(after, other)
  {
    var after := Admitted(c, source, id, nextParentId);
    forall other | other in after.paths ensures other < id + 1 && Describes(after, other) {
      if other != id {
        assert Describes(c, other);
      }
    }
  }

  lemma InversesExtend(paths: map<u64, Location>, sourceIds: map<Location, u64>, id: u64, path: Location)
    requires MutuallyInverse(paths, sourceIds) && id !in paths && path !in sourceIds
    ensures MutuallyInverse(paths[id := path], sourceIds[path := id])
  {
  }

  lemma ParentsExtend(parentIds: map<NativePath, u64>, parent: NativePath, nextParentId: u64)
    requires ParentsNumbered(parentIds, nextParentId) && nextParentId < U64_MAX
    ensures parent !in parentIds ==> ParentsNumbered(parentIds[parent := nextParentId], nextParentId + 1)
  {
  }

  /** What admitting `sources` from id `first` on may change: old sources keep their ids, and new ones get
      ids that were never used. */
  ghost predicate Grown(before: Contents, after: Contents, sources: seq<PreparedSource>, first: u64) {
    forall x {:trigger UnsealedAt(GrownSeal, sources, x)} :: UnsealedAt(GrownSeal, sources, x) ==> HasGrown(before, after, sources, first)
  }

  ghost predicate HasGrown(before: Contents, after: Contents, sources: seq<PreparedSource>, first: u64) {
    && KeepsSources(before, after, first) && KeepsParents(before, after, sources)
    && (forall path :: path in after.sourceIds ==> path in before.sourceIds || exists s :: s in sources && s.path == path)
    && (forall s :: s in sources ==> IsAdmitted(after, s))
    && |after.sourceIds| == |before.sourceIds| + |sources|
    && Numbered(after.sourceIds, sources, first)
  }

  /** The sources have got the next ids in their order. */
  ghost predicate Numbered(sourceIds: map<Location, u64>, sources: seq<PreparedSource>, first: u64) {
    forall i :: 0 <= i < |sources| ==> sources[i].path in sourceIds && sourceIds[sources[i].path] == first + i
  }

  ghost predicate IsAdmitted(c: Contents, s: PreparedSource) {
    && s.path in c.sourceIds
    && var id := c.sourceIds[s.path];
       && id in c.snapshots && c.snapshots[id].fingerprint == Some(s.fingerprint)
       && Looked(c.executionIdentities, id) == s.identity
  }

  function Looked<K, V>(m: map<K, V>, k: K): Option<V> {
    if k in m then Some(m[k]) else None
  }

  /** A directory is identified as it was, or as some admitted source in it was. */
  ghost predicate KeepsParents(before: Contents, after: Contents, sources: seq<PreparedSource>) {
    && (forall p :: p in before.parentIds ==> p in after.parentIds && after.parentIds[p] == before.parentIds[p])
    && (forall p :: Looked(after.parentExecutionIdentities, p) == Looked(before.parentExecutionIdentities, p)
                    || exists s :: s in sources && s.path.parent == p && s.parentIdentity.Some?
                                   && Looked(after.parentExecutionIdentities, p) == s.parentIdentity)
    && (forall s :: s in sources && s.parentIdentity.Some? ==> IsIdentified(after, sources, s.path.parent))
  }

  ghost predicate IsIdentified(c: Contents, sources: seq<PreparedSource>, parent: NativePath) {
    exists s :: s in sources && s.path.parent == parent && s.parentIdentity.Some? && Looked(c.parentExecutionIdentities, parent) == s.parentIdentity
  }

  /** Half-way through an admission, unless a counter has run out. */
  ghost predicate Growing(before: Contents, c: Contents, done: seq<PreparedSource>, first: u64, id: u64, parents: u64) {
    forall x {:trigger UnsealedAt(GrowingSeal, c, x)} :: UnsealedAt(GrowingSeal, c, x) ==>
      id == U64_MAX || parents == U64_MAX || (Coherent(c, id, parents) && id == first + |done| && Grown(before, c, done, first))
  }

  lemma NothingGrowsYet(c: Contents, first: u64, parents: u64)
    requires first == U64_MAX || parents == U64_MAX || Coherent(c, first, parents)
    ensures Growing(c, c, [], first, first, parents)
  {
    if first != U64_MAX && parents != U64_MAX {
      assert c.snapshots.Keys == c.paths.Keys by { assert UnsealedAt(CoherentSeal, c, 0) && UnsealedAt(LinkedSeal, c, 0); }
    }
  }

  lemma OneMoreIsGrowing(before: Contents, c: Contents, done: seq<PreparedSource>, source: PreparedSource,
                         first: u64, id: u64, parents: u64)
    requires Growing(before, c, done, first, id, parents) && source.path !in c.sourceIds
    ensures Growing(before, Admitted(c, source, id, parents), done + [source], first, SaturatingSucc(id),
                    if source.path.parent in c.parentIds then parents else SaturatingSucc(parents))
  {
    assert UnsealedAt(GrowingSeal, c, 0);
    if id < U64_MAX && parents < U64_MAX {
      AdmissionKeepsCoherence(c, source, id, parents);
      OneMoreGrows(before, c, done, source, first, id, parents);
    }
  }

  lemma GrowthIsCounted(before: Contents, after: Contents, sources: seq<PreparedSource>, first: u64, id: u64, parents: u64)
    requires Growing(before, after, sources, first, id, parents)
    ensures id == U64_MAX || parents == U64_MAX ||
              (Coherent(after, id, parents) && Grown(before, after, sources, first) && id == first + |sources|
               && |after.sourceIds| == |before.sourceIds| + |sources|)
  {
    assert UnsealedAt(GrowingSeal, after, 0) && UnsealedAt(GrownSeal, sources, 0);
  }

  lemma OneMoreGrows(before: Contents, c: Contents, sources: seq<PreparedSource>, source: PreparedSource,
                     first: u64, id: u64, nextParentId: u64)
    requires Grown(before, c, sources, first) && id == first + |sources|
    requires id !in c.paths && id !in c.snapshots && id !in c.executionIdentities && source.path !in c.sourceIds
    ensures Grown(before, Admitted(c, source, id, nextParentId), sources + [source], first)
  {
    assert HasGrown(before, c, sources, first) by { assert UnsealedAt(GrownSeal, sources, 0); }
    AdmissionKeepsTheRest(before, c, source, first, id, nextParentId);
    AdmissionIsSeen(before, c, sources, source, id, nextParentId);
    AdmissionKeepsParents(before, c, sources, source, id, nextParentId);
    NumberedOneMore(c.sourceIds, sources, source, first);
    assert HasGrown(before, Admitted(c, source, id, nextParentId), sources + [source], first);
  }

  lemma NumberedOneMore(sourceIds: map<Location, u64>, sources: seq<PreparedSource>, source: PreparedSource, first: u64)
    requires Numbered(sourceIds, sources, first) && source.path !in sourceIds && first + |sources| <= U64_MAX
    ensures Numbered(sourceIds[source.path := first + |sources|], sources + [source], first)
  {
    var longer := sources + [source];
    forall i | 0 <= i < |longer|
      ensures longer[i].path == source.path ==> i == |sources|
      ensures i < |sources| ==> longer[i] == sources[i]
    {
      if i < |sources| {
        assert sources[i].path in sourceIds;
      }
    }
  }

  /** New sources have new ids without a gap, in the order of their paths. */
  ghost predicate InOrder(le: (Location, Location) -> bool, before: Contents, now: Contents, first: u64, next: u64) {
    && (forall p :: p in now.sourceIds && p !in before.sourceIds ==> first <= now.sourceIds[p] < next)
    && (forall id :: first <= id < next ==> id in now.paths && now.paths[id] !in before.sourceIds)
    && (forall p, q :: p in now.sourceIds && p !in before.sourceIds && q in now.sourceIds && q !in before.sourceIds ==>
          (now.sourceIds[p] < now.sourceIds[q] <==> le(p, q) && p != q))
  }

  lemma PlaceOf(before: Contents, now: Contents, sources: seq<PreparedSource>, first: u64, p: Location) returns (i: nat)
    requires Grown(before, now, sources, first) && p in now.sourceIds && p !in before.sourceIds
    ensures i < |sources| && sources[i].path == p && now.sourceIds[p] == first + i
  {
    assert UnsealedAt(GrownSeal, sources, 0);
    var s :| s in sources && s.path == p;
    i :| 0 <= i < |sources| && sources[i] == s;
  }

  lemma SortedIsInOrder(le: (Location, Location) -> bool, before: Contents, now: Contents, candidates: seq<Candidate>,
                        sources: seq<PreparedSource>, first: u64, next: u64, parents: u64)
    requires TotalOrder(le) && PathsSorted(le, candidates) && PathsApart(candidates)
    requires InTurn(before.sourceIds, candidates, sources) && Grown(before, now, sources, first)
    requires forall s :: s in sources ==> s.path !in before.sourceIds
    requires next == first + |sources| && Coherent(now, next, parents)
    ensures InOrder(le, before, now, first, next)
  {
    NewPathsAreSorted(le, before.sourceIds, candidates);
    forall p | p in now.sourceIds && p !in before.sourceIds ensures first <= now.sourceIds[p] < next {
      var i := PlaceOf(before, now, sources, first, p);
    }
    forall id | first <= id < next ensures id in now.paths && now.paths[id] !in before.sourceIds {
      IdIsTaken(before, now, sources, first, id, next, parents);
    }
    forall p, q | p in now.sourceIds && p !in before.sourceIds && q in now.sourceIds && q !in before.sourceIds
      ensures now.sourceIds[p] < now.sourceIds[q] <==> le(p, q) && p != q
    {
      var i := PlaceOf(before, now, sources, first, p);
      var j := PlaceOf(before, now, sources, first, q);
      var paths := NewPaths(before.sourceIds, candidates);
      assert paths[i] == p && paths[j] == q;
      if i < j {
        assert le(paths[i], paths[j]) && p != q;
      } else if j < i {
        assert le(paths[j], paths[i]) && p != q;
        assert !(le(p, q) && le(q, p));
      }
    }
  }

  lemma CoherentInverses(c: Contents, nextSourceId: u64, nextParentId: u64)
    requires Coherent(c, nextSourceId, nextParentId)
    ensures MutuallyInverse(c.paths, c.sourceIds)
  {
    assert UnsealedAt(CoherentSeal, c, 0);
    assert UnsealedAt(LinkedSeal, c, 0);
  }

  lemma GrownAreNumbered(before: Contents, now: Contents, sources: seq<PreparedSource>, first: u64)
    requires Grown(before, now, sources, first)
    ensures Numbered(now.sourceIds, sources, first)
  {
    assert UnsealedAt(GrownSeal, sources, 0);
  }

  lemma IdIsTaken(before: Contents, now: Contents, sources: seq<PreparedSource>, first: u64, id: int, next: u64, parents: u64)
    requires Grown(before, now, sources, first) && first <= id < first + |sources| == next && Coherent(now, next, parents)
    requires forall s :: s in sources ==> s.path !in before.sourceIds
    ensures id in now.paths && now.paths[id] !in before.sourceIds
  {
    GrownAreNumbered(before, now, sources, first);
    CoherentInverses(now, next, parents);
    var s := sources[id - first];
    assert s in sources && now.sourceIds[s.path] == id;
  }

  lemma AdmissionKeepsParents(before: Contents, c: Contents, sources: seq<PreparedSource>, source: PreparedSource, id: u64, nextParentId: u64)
    requires KeepsParents(before, c, sources)
    ensures KeepsParents(before, Admitted(c, source, id, nextParentId), sources + [source])
  {
    var after, longer := Admitted(c, source, id, nextParentId), sources + [source];
    assert forall s :: s in sources ==> s in longer;
    assert source in longer;
    forall p ensures Looked(after.parentExecutionIdentities, p) == Looked(before.parentExecutionIdentities, p)
                     || exists s :: s in longer && s.path.parent == p && s.parentIdentity.Some?
                                    && Looked(after.parentExecutionIdentities, p) == s.parentIdentity
    {
      if p != source.path.parent || source.parentIdentity.None? {
        assert Looked(after.parentExecutionIdentities, p) == Looked(c.parentExecutionIdentities, p);
      }
    }
    forall s | s in longer && s.parentIdentity.Some? ensures IsIdentified(after, longer, s.path.parent) {
      if s.path.parent == source.path.parent && source.parentIdentity.Some? {
        assert Looked(after.parentExecutionIdentities, s.path.parent) == source.parentIdentity;
      } else {
        assert IsIdentified(c, sources, s.path.parent);
        var t :| t in sources && t.path.parent == s.path.parent && t.parentIdentity.Some?
                 && Looked(c.parentExecutionIdentities, s.path.parent) == t.parentIdentity;
        assert t in longer && Looked(after.parentExecutionIdentities, s.path.parent) == t.parentIdentity;
      }
    }
  }

  ghost predicate KeepsSources(before: Contents, after: Contents, first: u64) {
    && (forall id :: id in before.paths ==>
          id in after.paths && after.paths[id] == before.paths[id]
          && id in before.snapshots && id in after.snapshots && after.snapshots[id] == before.snapshots[id]
          && Looked(after.executionIdentities, id) == Looked(before.executionIdentities, id))
    && (forall id :: id in after.paths ==> id in before.paths || id >= first)
  }

  lemma AdmissionKeepsTheRest(before: Contents, c: Contents, source: PreparedSource, first: u64, id: u64, nextParentId: u64)
    requires KeepsSources(before, c, first) && first <= id
    requires id !in c.paths && id !in c.snapshots && id !in c.executionIdentities && source.path !in c.sourceIds
    ensures KeepsSources(before, Admitted(c, source, id, nextParentId), first)
    ensures |Admitted(c, source, id, nextParentId).sourceIds| == |c.sourceIds| + 1
  {
  }

  lemma AdmissionIsSeen(before: Contents, c: Contents, sources: seq<PreparedSource>, source: PreparedSource, id: u64, nextParentId: u64)
    requires id !in c.snapshots && id !in c.executionIdentities && source.path !in c.sourceIds
    requires forall path :: path in c.sourceIds ==> path in before.sourceIds || exists s :: s in sources && s.path == path
    requires forall s :: s in sources ==> IsAdmitted(c, s)
    ensures var after, longer := Admitted(c, source, id, nextParentId), sources + [source];
            && (forall path :: path in after.sourceIds ==> path in before.sourceIds || exists s :: s in longer && s.path == path)
            && (forall s :: s in longer ==> IsAdmitted(after, s))
  {
    var after, longer := Admitted(c, source, id, nextParentId), sources + [source];
    forall path | path in after.sourceIds ensures path in before.sourceIds || exists s :: s in longer && s.path == path {
      if path == source.path {
        assert source in longer;
      } else if path !in before.sourceIds {
        var s :| s in sources && s.path == path;
        assert s in longer;
      }
    }
    forall s | s in longer ensures IsAdmitted(after, s) {
      if s in sources {
        assert IsAdmitted(c, s);
      }
    }
  }

  /** One source less, its parent still listed. */
  ghost function Dropped(c: Contents, id: u64): Contents
    requires id in c.paths
  {
    c.(paths := c.paths - {id}, snapshots := c.snapshots - {id}, executionIdentities := c.executionIdentities - {id},
       sourceIds := c.sourceIds - {c.paths[id]})
  }

  lemma DroppingKeepsLinks(c: Contents, id: u64, nextSourceId: u64, nextParentId: u64)
    requires Linked(c, nextSourceId, nextParentId) && id in c.paths
    ensures Linked(Dropped(c, id), nextSourceId, nextParentId)
  {
    assert UnsealedAt(LinkedSeal, c, 0);
    InversesShrink(c.paths, c.sourceIds, id);
    DescriptionsStay(c, id, nextSourceId);
  }

  lemma InversesShrink(paths: map<u64, Location>, sourceIds: map<Location, u64>, id: u64)
    requires MutuallyInverse(paths, sourceIds) && id in paths
    ensures MutuallyInverse(paths - {id}, sourceIds - {paths[id]})
  {
  }

  lemma DescriptionsStay(c: Contents, id: u64, nextSourceId: u64)
    requires c.snapshots.Keys == c.paths.Keys && id in c.paths
    requires forall other :: other in c.paths ==> other < nextSourceId && Describes(c, other)
    ensures var after := Dropped(c, id);
            after.snapshots.Keys == after.paths.Keys
            && forall other :: other in after.paths ==> other < nextSourceId && Describes(after, other)
  {
    var after := Dropped(c, id);
    forall other | other in after.paths ensures other < nextSourceId && Describes(after, other) {
      assert Describes(c, other);
    }
  }

  /** Forgets the parents that no source lives in any more. */
  ghost function Retained(c: Contents): Contents {
    var live := set id | id in c.snapshots :: c.snapshots[id].parentId;
    var parentIds := map p | p in c.parentIds && c.parentIds[p] in live :: c.parentIds[p];
    c.(parentIds := parentIds,
       parentExecutionIdentities := map p | p in c.parentExecutionIdentities && p in parentIds :: c.parentExecutionIdentities[p])
  }

  lemma RetainingRestoresCoherence(c: Contents, nextSourceId: u64, nextParentId: u64)
    requires Linked(c, nextSourceId, nextParentId)
    ensures Coherent(Retained(c), nextSourceId, nextParentId)
  {
    RetainingKeepsLinks(c, nextSourceId, nextParentId);
    assert UnsealedAt(LinkedSeal, c, 0);
    RetainedParentsLive(c);
  }

  lemma RetainingKeepsLinks(c: Contents, nextSourceId: u64, nextParentId: u64)
    requires Linked(c, nextSourceId, nextParentId)
    ensures Linked(Retained(c), nextSourceId, nextParentId)
  {
    assert UnsealedAt(LinkedSeal, c, 0);
    var after := Retained(c);
    forall id | id in after.paths ensures id < nextSourceId && Describes(after, id) {
      assert Describes(c, id);
    }
  }

  lemma RetainedParentsLive(c: Contents)
    requires c.snapshots.Keys == c.paths.Keys && forall id :: id in c.paths ==> Describes(c, id)
    requires forall p, q :: p in c.parentIds && q in c.parentIds && c.parentIds[p] == c.parentIds[q] ==> p == q
    ensures forall p :: p in Retained(c).parentIds ==> IsLiveParent(Retained(c), p)
  {
    var after := Retained(c);
    forall p | p in after.parentIds ensures IsLiveParent(after, p) {
      var id :| id in c.snapshots && c.snapshots[id].parentId == c.parentIds[p];
      assert Describes(c, id);
      assert after.paths[id].parent == p;
    }
  }

  /** What removing `ids` leaves: the other sources as they were. */
  ghost predicate Shrunk(before: Contents, after: Contents, ids: set<u64>) {
    forall x {:trigger UnsealedAt(ShrunkSeal, ids, x)} :: UnsealedAt(ShrunkSeal, ids, x) ==> HasShrunk(before, after, ids)
  }

  ghost predicate HasShrunk(before: Contents, after: Contents, ids: set<u64>) {
    && after.paths == before.paths - ids && after.snapshots == before.snapshots - ids
    && after.executionIdentities == before.executionIdentities - ids
    && (forall p :: p in after.parentIds ==>
          && p in before.parentIds && after.parentIds[p] == before.parentIds[p]
          && Looked(after.parentExecutionIdentities, p) == Looked(before.parentExecutionIdentities, p))
  }

  lemma NothingShrinksYet(c: Contents)
    ensures Shrunk(c, c, {})
  {
    assert c.paths - {} == c.paths && c.snapshots - {} == c.snapshots && c.executionIdentities - {} == c.executionIdentities;
  }

  lemma OneLessShrinks(before: Contents, c: Contents, ids: set<u64>, id: u64, nextSourceId: u64, nextParentId: u64)
    requires Shrunk(before, c, ids) && Linked(c, nextSourceId, nextParentId)
    ensures id in c.paths ==> Shrunk(before, Dropped(c, id), ids + {id}) && Linked(Dropped(c, id), nextSourceId, nextParentId)
    ensures id !in c.paths ==> Shrunk(before, c, ids + {id})
  {
    if id in c.paths {
      DroppingKeepsLinks(c, id, nextSourceId, nextParentId);
    }
    assert id !in c.paths ==> id !in c.snapshots && id !in c.executionIdentities by {
      assert UnsealedAt(LinkedSeal, c, 0);
    }
    assert UnsealedAt(ShrunkSeal, ids, 0);
    assert before.paths - (ids + {id}) == before.paths - ids - {id};
    assert before.snapshots - (ids + {id}) == before.snapshots - ids - {id};
    assert before.executionIdentities - (ids + {id}) == before.executionIdentities - ids - {id};
  }

  /** Half-way through a removal, unless a counter has run out. */
  ghost predicate Thinning(before: Contents, c: Contents, ids: set<u64>, id: u64, parents: u64) {
    forall x {:trigger UnsealedAt(ThinningSeal, c, x)} :: UnsealedAt(ThinningSeal, c, x) ==>
      id == U64_MAX || parents == U64_MAX
      || (Linked(c, id, parents) && Shrunk(before, c, ids) && |c.sourceIds| <= |before.sourceIds|)
  }

  lemma NothingIsThinnerYet(c: Contents, id: u64, parents: u64)
    requires id == U64_MAX || parents == U64_MAX || Coherent(c, id, parents)
    ensures Thinning(c, c, {}, id, parents)
  {
    assert UnsealedAt(CoherentSeal, c, 0);
    NothingShrinksYet(c);
  }

  lemma OneLessIsThinner(before: Contents, c: Contents, ids: set<u64>, sourceId: u64, id: u64, parents: u64)
    requires Thinning(before, c, ids, id, parents)
    ensures Thinning(before, if sourceId in c.paths then Dropped(c, sourceId) else c, ids + {sourceId}, id, parents)
  {
    assert UnsealedAt(ThinningSeal, c, 0);
    if id < U64_MAX && parents < U64_MAX {
      OneLessShrinks(before, c, ids, sourceId, id, parents);
      if sourceId in c.paths {
        SubsetIsSmaller(Dropped(c, sourceId).sourceIds.Keys, c.sourceIds.Keys);
      }
    }
  }

  lemma ThinIsShrunk(before: Contents, c: Contents, ids: set<u64>, id: u64, parents: u64)
    requires Thinning(before, c, ids, id, parents)
    ensures id == U64_MAX || parents == U64_MAX ||
              (Shrunk(before, c, ids) && Coherent(Retained(c), id, parents) && Shrunk(before, Retained(c), ids)
               && |c.sourceIds| <= |before.sourceIds|)
  {
    assert UnsealedAt(ThinningSeal, c, 0);
    if id < U64_MAX && parents < U64_MAX {
      RetainingRestoresCoherence(c, id, parents);
      RetainingStillShrinks(before, c, ids);
    }
  }

  lemma RetainingStillShrinks(before: Contents, c: Contents, ids: set<u64>)
    requires Shrunk(before, c, ids)
    ensures Shrunk(before, Retained(c), ids)
  {
    assert UnsealedAt(ShrunkSeal, ids, 0);
  }

  // ---------------------------------------------------------------- preparing an admission

  /** The candidates are the selected paths in their normal form, each path once. */
  ghost predicate Selects(disk: Disk, selected: seq<NativePath>, candidates: seq<Candidate>) {
    && PathsApart(candidates)
    && (forall c :: c in candidates ==> exists p :: p in selected && disk.normalize(p) == Success(c))
    && (forall p :: p in selected ==> disk.normalize(p).Success? && HasPath(candidates, disk.normalize(p).value.path))
  }

  ghost predicate HasPath(candidates: seq<Candidate>, path: Location) {
    exists c :: c in candidates && c.path == path
  }

  /** A new candidate is no longer what it was when its path was normalized. */
  ghost predicate Vanished(disk: Disk, sourceIds: map<Location, u64>, candidates: seq<Candidate>, error: AdmissionError) {
    exists c :: c in candidates && c.path !in sourceIds && disk.fingerprint(c.path) != Some(c.fingerprint)
                && error == Unavailable(disk.pathOf(c.path))
  }

  /** What each refusal of an admission means. */
  ghost predicate AdmissionRefused(disk: Disk, selected: seq<NativePath>, sourceIds: map<Location, u64>,
                                   candidates: seq<Candidate>, error: AdmissionError)
  {
    || (error.TooManySources? && |selected| > MAX_ADMITTED_SOURCES)
    || (exists p :: p in selected && disk.normalize(p) == Failure(error))
    || (error.TooManySources? && Selects(disk, selected, candidates)
        && |sourceIds| + NewCount(sourceIds, candidates) > MAX_ADMITTED_SOURCES)
    || (Selects(disk, selected, candidates) && Vanished(disk, sourceIds, candidates, error))
  }

  method NormalizeAll(disk: Disk, selected: seq<NativePath>) returns (r: Result<seq<Candidate>, AdmissionError>)
    ensures r.Success? ==> |r.value| == |selected| && forall i :: 0 <= i < |selected| ==> disk.normalize(selected[i]) == Success(r.value[i])
    ensures r.Failure? ==> exists p :: p in selected && disk.normalize(p) == Failure(r.error)
  {
    var candidates: seq<Candidate> := [];
    for i := 0 to |selected|
      invariant |candidates| == i && forall j :: 0 <= j < i ==> disk.normalize(selected[j]) == Success(candidates[j])
    {
      var normalized := disk.normalize(selected[i]);
      if normalized.Failure? {
        assert selected[i] in selected;
        return Failure(normalized.error);
      }
      candidates := candidates + [normalized.value];
    }
    return Success(candidates);
  }

  lemma SortingSelects(disk: Disk, selected: seq<NativePath>, normalized: seq<Candidate>, sorted: seq<Candidate>)
    requires |normalized| == |selected| && forall i :: 0 <= i < |selected| ==> disk.normalize(selected[i]) == Success(normalized[i])
    requires multiset(sorted) == multiset(normalized) && PathsApart(DropRepeats(sorted))
    ensures Selects(disk, selected, DropRepeats(sorted))
  {
    var distinct := DropRepeats(sorted);
    forall c | c in distinct ensures exists p :: p in selected && disk.normalize(p) == Success(c) {
      SameElements(sorted, normalized, c);
      var i :| 0 <= i < |normalized| && normalized[i] == c;
      assert selected[i] in selected;
    }
    forall p | p in selected ensures disk.normalize(p).Success? && HasPath(distinct, disk.normalize(p).value.path) {
      var i :| 0 <= i < |selected| && selected[i] == p;
      SameElements(sorted, normalized, normalized[i]);
      RepeatsLoseNoPath(sorted, normalized[i]);
    }
  }

  lemma SameElements<T>(a: seq<T>, b: seq<T>, x: T)
    requires multiset(a) == multiset(b)
    ensures x in a <==> x in b
  {
    assert x in multiset(a) <==> x in multiset(b);
  }

  function NewCount(sourceIds: map<Location, u64>, candidates: seq<Candidate>): nat {
    if candidates == [] then 0
    else
      var last := candidates[|candidates| - 1];
      NewCount(sourceIds, candidates[..|candidates| - 1]) + if last.path in sourceIds then 0 else 1
  }

  /** The paths of the new candidates, in their order. */
  ghost function NewPaths(sourceIds: map<Location, u64>, candidates: seq<Candidate>): seq<Location> {
    if candidates == [] then []
    else
      var last := candidates[|candidates| - 1];
      NewPaths(sourceIds, candidates[..|candidates| - 1]) + if last.path in sourceIds then [] else [last.path]
  }

  ghost predicate InTurn(sourceIds: map<Location, u64>, candidates: seq<Candidate>, prepared: seq<PreparedSource>) {
    && |prepared| == |NewPaths(sourceIds, candidates)|
    && forall i :: 0 <= i < |prepared| ==> prepared[i].path == NewPaths(sourceIds, candidates)[i]
  }

  lemma OneMoreInTurn(disk: Disk, sourceIds: map<Location, u64>, done: seq<Candidate>, c: Candidate, prepared: seq<PreparedSource>)
    requires InTurn(sourceIds, done, prepared)
    ensures InTurn(sourceIds, done + [c], if c.path in sourceIds then prepared else prepared + [Reading(disk, c)])
  {
    assert (done + [c])[..|done|] == done;
  }

  ghost predicate Ascends(le: (Location, Location) -> bool, paths: seq<Location>) {
    forall i, j :: 0 <= i < j < |paths| ==> le(paths[i], paths[j]) && paths[i] != paths[j]
  }

  ghost predicate AllThere(candidates: seq<Candidate>, paths: seq<Location>) {
    forall i :: 0 <= i < |paths| ==> HasPath(candidates, paths[i])
  }

  lemma {:induction false} NewPathsAreSorted(le: (Location, Location) -> bool, sourceIds: map<Location, u64>, candidates: seq<Candidate>)
    requires PathsSorted(le, candidates) && PathsApart(candidates)
    ensures Ascends(le, NewPaths(sourceIds, candidates)) && AllThere(candidates, NewPaths(sourceIds, candidates))
  {
    if candidates != [] {
      var front, last := candidates[..|candidates| - 1], candidates[|candidates| - 1];
      NewPathsAreSorted(le, sourceIds, front);
      var before, paths := NewPaths(sourceIds, front), NewPaths(sourceIds, candidates);
      forall i | 0 <= i < |before|
        ensures le(before[i], last.path) && before[i] != last.path && HasPath(candidates, before[i]) && paths[i] == before[i]
      {
        assert HasPath(front, before[i]);
        var c :| c in front && c.path == before[i];
        var a :| 0 <= a < |front| && front[a] == c;
        assert candidates[a] in candidates;
      }
      assert last in candidates;
      forall i | |before| <= i < |paths| ensures paths[i] == last.path {
      }
    }
  }

  ghost predicate Prepares(disk: Disk, sourceIds: map<Location, u64>, candidates: seq<Candidate>, prepared: seq<PreparedSource>) {
    && |prepared| == NewCount(sourceIds, candidates)
    && (forall i, j :: 0 <= i < j < |prepared| ==> prepared[i].path != prepared[j].path)
    && (forall s :: s in prepared ==> s.path !in sourceIds && Candidate(s.path, s.fingerprint) in candidates)
    && (forall c :: c in candidates && c.path !in sourceIds ==> Accepts(disk, prepared, c))
  }

  function Reading(disk: Disk, c: Candidate): PreparedSource {
    PreparedSource(c.path, c.fingerprint, disk.identity(c.path), disk.parentIdentity(c.path.parent))
  }

  ghost predicate Accepts(disk: Disk, prepared: seq<PreparedSource>, c: Candidate) {
    && disk.fingerprint(c.path) == Some(c.fingerprint)
    && Reading(disk, c) in prepared
  }

  /** Whatever the registry knows of a new source it has read from the disk; and a directory with a new source is
      identified as the disk identifies it, if it does. */
  ghost predicate ReadFrom(disk: Disk, before: Contents, now: Contents) {
    && (forall p :: p in now.sourceIds && p !in before.sourceIds ==>
          var id := now.sourceIds[p];
          && id in now.snapshots && now.snapshots[id].fingerprint.Some? && now.snapshots[id].fingerprint == disk.fingerprint(p)
          && Looked(now.executionIdentities, id) == disk.identity(p))
    && (forall dir :: Looked(now.parentExecutionIdentities, dir)
                      == if GainsSource(before, now, dir) && disk.parentIdentity(dir).Some? then disk.parentIdentity(dir)
                         else Looked(before.parentExecutionIdentities, dir))
  }

  ghost predicate GainsSource(before: Contents, now: Contents, dir: NativePath) {
    exists p :: p in now.sourceIds && p !in before.sourceIds && p.parent == dir
  }

  /** What was prepared is what was read. */
  lemma PreparedIsRead(disk: Disk, sourceIds: map<Location, u64>, candidates: seq<Candidate>, prepared: seq<PreparedSource>, s: PreparedSource)
    requires Prepares(disk, sourceIds, candidates, prepared) && s in prepared
    ensures s.path !in sourceIds && disk.fingerprint(s.path) == Some(s.fingerprint)
    ensures s.identity == disk.identity(s.path) && s.parentIdentity == disk.parentIdentity(s.path.parent)
  {
    var c := Candidate(s.path, s.fingerprint);
    assert Accepts(disk, prepared, c);
    var i :| 0 <= i < |prepared| && prepared[i] == s;
    var j :| 0 <= j < |prepared| && prepared[j] == Reading(disk, c);
  }

  lemma AdmittedIsRead(disk: Disk, before: Contents, now: Contents, candidates: seq<Candidate>, sources: seq<PreparedSource>, first: u64)
    requires Prepares(disk, before.sourceIds, candidates, sources) && Grown(before, now, sources, first)
    ensures ReadFrom(disk, before, now)
  {
    assert HasGrown(before, now, sources, first) by { assert UnsealedAt(GrownSeal, sources, 0); }
    forall s | s in sources
      ensures s.path !in before.sourceIds && disk.fingerprint(s.path) == Some(s.fingerprint)
      ensures s.identity == disk.identity(s.path) && s.parentIdentity == disk.parentIdentity(s.path.parent)
      ensures IsAdmitted(now, s) && GainsSource(before, now, s.path.parent)
    {
      PreparedIsRead(disk, before.sourceIds, candidates, sources, s);
    }
    forall dir
      ensures Looked(now.parentExecutionIdentities, dir)
              == if GainsSource(before, now, dir) && disk.parentIdentity(dir).Some? then disk.parentIdentity(dir)
                 else Looked(before.parentExecutionIdentities, dir)
    {
      if GainsSource(before, now, dir) && disk.parentIdentity(dir).Some? {
        var p :| p in now.sourceIds && p !in before.sourceIds && p.parent == dir;
        var s :| s in sources && s.path == p;
        assert IsIdentified(now, sources, dir);
      }
    }
  }

  /** One more candidate, known already or accepted. */
  lemma OneMorePrepares(disk: Disk, sourceIds: map<Location, u64>, done: seq<Candidate>, c: Candidate, prepared: seq<PreparedSource>)
    requires Prepares(disk, sourceIds, done, prepared) && PathsApart(done + [c])
    ensures c.path in sourceIds ==> Prepares(disk, sourceIds, done + [c], prepared)
    ensures c.path !in sourceIds && disk.fingerprint(c.path) == Some(c.fingerprint) ==>
              Prepares(disk, sourceIds, done + [c], prepared + [Reading(disk, c)])
  {
    var longer := done + [c];
    assert longer[..|done|] == done && longer[|done|] == c;
    if c.path !in sourceIds && disk.fingerprint(c.path) == Some(c.fingerprint) {
      var more := prepared + [Reading(disk, c)];
      forall s | s in prepared ensures s.path != c.path {
        var j :| 0 <= j < |done| && done[j] == Candidate(s.path, s.fingerprint);
        assert longer[j].path != longer[|done|].path;
      }
      forall i | 0 <= i < |prepared| ensures more[i].path != c.path {
        assert prepared[i] in prepared;
      }
      forall d | d in longer && d.path !in sourceIds ensures Accepts(disk, more, d) {
        if d in done {
          assert Accepts(disk, prepared, d);
        }
      }
    }
  }

  /** Reads the identities of the new candidates; one that changed meanwhile refuses them all. */
  method PrepareCandidates(disk: Disk, sourceIds: map<Location, u64>, candidates: seq<Candidate>)
    returns (r: Result<seq<PreparedSource>, AdmissionError>)
    requires PathsApart(candidates)
    ensures r.Failure? <==> exists c :: c in candidates && c.path !in sourceIds && disk.fingerprint(c.path) != Some(c.fingerprint)
    ensures r.Failure? ==> Vanished(disk, sourceIds, candidates, r.error)
    ensures r.Success? ==> Prepares(disk, sourceIds, candidates, r.value) && InTurn(sourceIds, candidates, r.value)
  {
    var prepared: seq<PreparedSource> := [];
    for i := 0 to |candidates|
      invariant Prepares(disk, sourceIds, candidates[..i], prepared) && InTurn(sourceIds, candidates[..i], prepared)
    {
      var c := candidates[i];
      assert candidates[..i + 1] == candidates[..i] + [c];
      OneMorePrepares(disk, sourceIds, candidates[..i], c, prepared);
      OneMoreInTurn(disk, sourceIds, candidates[..i], c, prepared);
      if c.path in sourceIds {
        continue;
      }
      if disk.fingerprint(c.path) != Some(c.fingerprint) {
        return Failure(Unavailable(disk.pathOf(c.path)));
      }
      prepared := prepared + [Reading(disk, c)];
    }
    assert candidates[..|candidates|] == candidates;
    return Success(prepared);
  }

  // ---------------------------------------------------------------- the registry

  /** The newest generation stands for the contents. */
  ghost predicate Recorded(past: map<u64, Contents>, generation: u64, c: Contents) {
    forall x {:trigger UnsealedAt(RecordedSeal, past, x)} :: UnsealedAt(RecordedSeal, past, x) ==> IsRecorded(past, generation, c)
  }

  ghost predicate IsRecorded(past: map<u64, Contents>, generation: u64, c: Contents) {
    generation in past && past[generation] == c && forall g :: g in past ==> g <= generation
  }

  class SourceRegistry {
    var paths: map<u64, Location>
    var snapshots: map<u64, SourceSnapshot>
    var executionIdentities: map<u64, ExecutionIdentity>
    var parentExecutionIdentities: map<NativePath, ExecutionIdentity>
    var sourceIds: map<Location, u64>
    var parentIds: map<NativePath, u64>
    var nextSourceId: u64
    var nextParentId: u64
    var generation: u64
    var cachedPlanningSnapshot: Option<PlanningSnapshot>
    // The contents at every generation so far.
    ghost var past: map<u64, Contents>

    function Now(): Contents
      reads this
    {
      Contents(paths, snapshots, executionIdentities, parentExecutionIdentities, sourceIds, parentIds)
    }

    function Fresh(): PlanningSnapshot
      reads this
    {
      PlanningSnapshot(paths, InIdOrder(snapshots), parentIds, generation)
    }

    /** A counter at its limit no longer tells ids apart... */
    predicate IdsExhausted()
      reads this
    {
      nextSourceId == U64_MAX || nextParentId == U64_MAX
    }

    /** ...or generations. */
    predicate Saturated()
      reads this
    {
      IdsExhausted() || generation == U64_MAX
    }

    ghost predicate Valid()
      reads this
    {
      && (cachedPlanningSnapshot.Some? ==> cachedPlanningSnapshot.value == Fresh())
      && (IdsExhausted() || (Coherent(Now(), nextSourceId, nextParentId) && |sourceIds| <= MAX_ADMITTED_SOURCES))
      && (Saturated() || Recorded(past, generation, Now()))
    }

    constructor ()
      ensures Valid() && !Saturated() && Now() == Contents(map[], map[], map[], map[], map[], map[])
    {
      paths, snapshots, executionIdentities, parentExecutionIdentities := map[], map[], map[], map[];
      sourceIds, parentIds := map[], map[];
      nextSourceId, nextParentId, generation := 1, 1, 0;
      cachedPlanningSnapshot := None;
      past := map[0 := Contents(map[], map[], map[], map[], map[], map[])];
    }

    /** The cached copy is always as good as a fresh one, and its generation stands for its contents. */
    method TakePlanningSnapshot() returns (r: PlanningSnapshot)
      requires Valid()
      modifies this`cachedPlanningSnapshot
      ensures Valid() && r == Fresh() && cachedPlanningSnapshot == Some(r)
      ensures !Saturated() ==> r.generation in past && past[r.generation] == Now()
    {
      assert UnsealedAt(RecordedSeal, past, 0);
      if cachedPlanningSnapshot.None? {
        cachedPlanningSnapshot := Some(PlanningSnapshot(paths, InIdOrder(snapshots), parentIds, generation));
      }
      r := cachedPlanningSnapshot.value;
    }

    /** Admits every selected path that is not selected yet, or changes nothing. */
    method AdmitPathsCount(disk: Disk, selected: seq<NativePath>)
      returns (r: Result<nat, AdmissionError>, ghost candidates: seq<Candidate>, ghost admitted: seq<PreparedSource>)
      requires Valid() && TotalOrder(disk.pathLe)
      modifies this
      ensures Valid() && nextSourceId >= old(nextSourceId) && nextParentId >= old(nextParentId)
      ensures r.Success? ==> Selects(disk, selected, candidates) && Prepares(disk, old(sourceIds), candidates, admitted)
      ensures r.Failure? ==> AdmissionRefused(disk, selected, old(sourceIds), candidates, r.error)
      ensures r.Failure? || r.value == 0 ==> unchanged(this)
      ensures r.Success? && !IdsExhausted() ==> r.value == |admitted| && Grown(old(Now()), Now(), admitted, old(nextSourceId))
      ensures r.Success? && !IdsExhausted() ==>
                nextSourceId == old(nextSourceId) + r.value
                && InOrder(disk.pathLe, old(Now()), Now(), old(nextSourceId), nextSourceId)
                && ReadFrom(disk, old(Now()), Now())
      ensures r.Success? && r.value > 0 ==> generation == SaturatingSucc(old(generation))
      ensures !Saturated() ==> Remembers(past, old(past))
    {
      candidates, admitted := [], [];
      if |selected| > MAX_ADMITTED_SOURCES {
        return Failure(AdmissionError.TooManySources), [], [];
      }
      var normalized := NormalizeAll(disk, selected);
      if normalized.Failure? {
        return Failure(normalized.error), [], [];
      }
      var le := (a: Candidate, b: Candidate) => disk.pathLe(a.path, b.path);
      SortedCandidates(disk, normalized.value, le);
      var distinct := DropRepeats(Sort(normalized.value, le));
      SortingSelects(disk, selected, normalized.value, Sort(normalized.value, le));
      candidates := distinct;
      if |sourceIds| + NewCount(sourceIds, distinct) > MAX_ADMITTED_SOURCES {
        return Failure(AdmissionError.TooManySources), candidates, [];
      }
      ghost var before, first := Now(), nextSourceId;
      r, admitted := AdmitCandidates(disk, distinct);
      if r.Success? && !IdsExhausted() {
        SortedIsInOrder(disk.pathLe, before, Now(), distinct, admitted, first, nextSourceId, nextParentId);
        AdmittedIsRead(disk, before, Now(), distinct, admitted, first);
      }
    }

    method AdmitCandidates(disk: Disk, candidates: seq<Candidate>) returns (r: Result<nat, AdmissionError>, ghost admitted: seq<PreparedSource>)
      requires Valid() && PathsApart(candidates)
      requires |sourceIds| + NewCount(sourceIds, candidates) <= MAX_ADMITTED_SOURCES
      modifies this
      ensures Valid() && nextSourceId >= old(nextSourceId) && nextParentId >= old(nextParentId)
      ensures r.Failure? ==> Vanished(disk, old(sourceIds), candidates, r.error)
      ensures r.Failure? || r.value == 0 ==> unchanged(this)
      ensures r.Failure? <==> exists c :: c in candidates && c.path !in old(sourceIds) && disk.fingerprint(c.path) != Some(c.fingerprint)
      ensures r.Success? ==> Prepares(disk, old(sourceIds), candidates, admitted) && r.value == |admitted|
      ensures r.Success? ==> InTurn(old(sourceIds), candidates, admitted)
      ensures r.Success? && !IdsExhausted() ==>
                Grown(old(Now()), Now(), admitted, old(nextSourceId)) && nextSourceId == old(nextSourceId) + r.value
      ensures r.Success? && r.value > 0 ==> generation == SaturatingSucc(old(generation))
      ensures !Saturated() ==> Remembers(past, old(past))
    {
      var prepared := PrepareCandidates(disk, sourceIds, candidates);
      if prepared.Failure? {
        return Failure(prepared.error), [];
      }
      admitted := prepared.value;
      ghost var before, first := Now(), nextSourceId;
      AdmitEach(prepared.value);
      GrowthIsCounted(before, Now(), prepared.value, first, nextSourceId, nextParentId);
      if |prepared.value| > 0 {
        NextGeneration(before);
      }
      return Success(|prepared.value|), admitted;
    }

    method AdmitEach(prepared: seq<PreparedSource>)
      requires IdsExhausted() || Coherent(Now(), nextSourceId, nextParentId)
      requires forall i :: 0 <= i < |prepared| ==> prepared[i].path !in sourceIds
      requires forall i, j :: 0 <= i < j < |prepared| ==> prepared[i].path != prepared[j].path
      modifies this`paths, this`snapshots, this`executionIdentities, this`parentExecutionIdentities
      modifies this`sourceIds, this`parentIds, this`nextSourceId, this`nextParentId
      ensures prepared == [] ==> unchanged(this)
      ensures Growing(old(Now()), Now(), prepared, old(nextSourceId), nextSourceId, nextParentId)
      ensures nextSourceId >= old(nextSourceId) && nextParentId >= old(nextParentId)
    {
      ghost var before, first := Now(), nextSourceId;
      NothingGrowsYet(before, first, nextParentId);
      assert prepared[..0] == [];
      for i := 0 to |prepared|
        invariant i == 0 ==> unchanged(this)
        invariant Growing(before, Now(), prepared[..i], first, nextSourceId, nextParentId)
        invariant nextSourceId >= first && nextParentId >= old(nextParentId)
        invariant forall j :: i <= j < |prepared| ==> prepared[j].path !in sourceIds
      {
        assert prepared[..i + 1] == prepared[..i] + [prepared[i]];
        OneMoreIsGrowing(before, Now(), prepared[..i], prepared[i], first, nextSourceId, nextParentId);
        AdmitOne(prepared[i]);
      }
      assert prepared[..|prepared|] == prepared;
    }

    /** Enters one prepared source into all the maps. */
    method AdmitOne(source: PreparedSource)
      modifies this`paths, this`snapshots, this`executionIdentities, this`parentExecutionIdentities
      modifies this`sourceIds, this`parentIds, this`nextSourceId, this`nextParentId
      ensures Now() == Admitted(old(Now()), source, old(nextSourceId), old(nextParentId))
      ensures nextSourceId == SaturatingSucc(old(nextSourceId))
      ensures nextParentId == if source.path.parent in old(parentIds) then old(nextParentId) else SaturatingSucc(old(nextParentId))
    {
      var sourceId := nextSourceId;
      nextSourceId := SaturatingSucc(nextSourceId);
      var parent := source.path.parent;
      var parentId: u64;
      if parent in parentIds {
        parentId := parentIds[parent];
      } else {
        parentId := nextParentId;
        nextParentId := SaturatingSucc(nextParentId);
        parentIds := parentIds[parent := parentId];
      }
      var snapshot := SourceSnapshot(sourceId, parentId, source.path.name, Some(source.fingerprint));
      sourceIds := sourceIds[source.path := sourceId];
      paths := paths[sourceId := source.path];
      snapshots := snapshots[sourceId := snapshot];
      if source.identity.Some? {
        executionIdentities := executionIdentities[sourceId := source.identity.value];
      }
      if source.parentIdentity.Some? {
        parentExecutionIdentities := parentExecutionIdentities[parent := source.parentIdentity.value];
      }
    }

    /** Removes the sources that are there; parents without sources go with them. */
    method RemoveSources(ids: seq<u64>) returns (removed: nat)
      requires Valid()
      modifies this`paths, this`sourceIds, this`snapshots, this`executionIdentities
      modifies this`parentIds, this`parentExecutionIdentities, this`generation, this`cachedPlanningSnapshot, this`past
      ensures Valid()
      ensures Removed(old(paths), paths, SetOf(ids), removed)
      ensures removed == 0 ==> unchanged(this)
      ensures removed > 0 ==> generation == SaturatingSucc(old(generation))
      ensures !IdsExhausted() ==> Shrunk(old(Now()), Now(), SetOf(ids))
      ensures !Saturated() ==> Remembers(past, old(past))
    {
      ghost var before := Now();
      removed := RemoveEach(ids);
      if removed > 0 {
        ConcludeRemoval(before, SetOf(ids));
      } else {
        assert Valid();
        ThinIsShrunk(before, Now(), SetOf(ids), nextSourceId, nextParentId);
      }
    }

    /** Drops the parents that are left without a source, and stamps the contents anew. */
    method ConcludeRemoval(ghost before: Contents, ghost ids: set<u64>)
      requires Thinning(before, Now(), ids, nextSourceId, nextParentId)
      requires IdsExhausted() || |before.sourceIds| <= MAX_ADMITTED_SOURCES
      requires Saturated() || Recorded(past, generation, before)
      modifies this`parentIds, this`parentExecutionIdentities, this`generation, this`cachedPlanningSnapshot, this`past
      ensures Valid() && generation == SaturatingSucc(old(generation))
      ensures !IdsExhausted() ==> Shrunk(before, Now(), ids)
      ensures !Saturated() ==> Remembers(past, old(past))
    {
      ThinIsShrunk(before, Now(), ids, nextSourceId, nextParentId);
      RetainParents();
      NextGeneration(before);
    }

    method RemoveEach(ids: seq<u64>) returns (removed: nat)
      requires IdsExhausted() || Coherent(Now(), nextSourceId, nextParentId)
      modifies this`paths, this`sourceIds, this`snapshots, this`executionIdentities
      ensures Removed(old(paths), paths, SetOf(ids), removed)
      ensures removed == 0 ==> unchanged(this)
      ensures Thinning(old(Now()), Now(), SetOf(ids), nextSourceId, nextParentId)
    {
      removed := 0;
      ghost var before := Now();
      NothingIsThinnerYet(before, nextSourceId, nextParentId);
      NothingRemovedYet(paths);
      assert SetOf(ids[..0]) == {};
      for i := 0 to |ids|
        invariant removed == 0 ==> unchanged(this)
        invariant Removed(old(paths), paths, SetOf(ids[..i]), removed)
        invariant Thinning(before, Now(), SetOf(ids[..i]), nextSourceId, nextParentId)
      {
        OneMoreId(ids, i);
        OneLessIsThinner(before, Now(), SetOf(ids[..i]), ids[i], nextSourceId, nextParentId);
        OneMoreRemoved(old(paths), paths, SetOf(ids[..i]), removed, ids[i]);
        var dropped := RemoveOne(ids[i]);
        removed := removed + if dropped then 1 else 0;
      }
      assert ids[..|ids|] == ids;
    }

    /** Changed contents get a new generation, and the cached copy is dropped. */
    method NextGeneration(ghost was: Contents)
      modifies this`generation, this`cachedPlanningSnapshot, this`past
      ensures generation == SaturatingSucc(old(generation)) && cachedPlanningSnapshot.None?
      ensures old(Recorded(past, generation, was)) && generation < U64_MAX ==>
                Recorded(past, generation, Now()) && Remembers(past, old(past))
    {
      assert UnsealedAt(RecordedSeal, past, 0);
      generation := SaturatingSucc(generation);
      cachedPlanningSnapshot := None;
      past := past[generation := Now()];
    }

    method RemoveOne(sourceId: u64) returns (dropped: bool)
      modifies this`paths, this`sourceIds, this`snapshots, this`executionIdentities
      ensures dropped <==> sourceId in old(paths)
      ensures paths == old(paths) - {sourceId}
      ensures dropped ==> Now() == Dropped(old(Now()), sourceId)
      ensures !dropped ==> unchanged(this)
    {
      dropped := sourceId in paths;
      if dropped {
        var path := paths[sourceId];
        paths := paths - {sourceId};
        sourceIds := sourceIds - {path};
        snapshots := snapshots - {sourceId};
        executionIdentities := executionIdentities - {sourceId};
      }
    }

    method RetainParents()
      modifies this`parentIds, this`parentExecutionIdentities
      ensures Now() == Retained(old(Now()))
    {
      var retained := set id | id in snapshots :: snapshots[id].parentId;
      parentIds := map p | p in parentIds && parentIds[p] in retained :: parentIds[p];
      parentExecutionIdentities := map p | p in parentExecutionIdentities && p in parentIds :: parentExecutionIdentities[p];
    }
  }

  ghost function SetOf(ids: seq<u64>): set<u64> {
    set id | id in ids
  }

  /** Exactly the listed sources are gone, and each was counted once. */
  ghost predicate Removed(before: map<u64, Location>, now: map<u64, Location>, ids: set<u64>, count: nat) {
    forall x {:trigger UnsealedAt(RemovedSeal, ids, x)} :: UnsealedAt(RemovedSeal, ids, x) ==>
      now == before - ids && count == |ids * before.Keys|
  }

  lemma NothingRemovedYet(before: map<u64, Location>)
    ensures Removed(before, before, {}, 0)
  {
    assert before - {} == before && {} * before.Keys == {};
  }

  lemma CountOneMore(ids: set<u64>, keys: set<u64>, id: u64)
    ensures |(ids + {id}) * keys| == |ids * keys| + if id in keys - ids then 1 else 0
  {
    assert (ids + {id}) * keys == ids * keys + (if id in keys - ids then {id} else {});
  }

  lemma DropOneMore(before: map<u64, Location>, ids: set<u64>, id: u64)
    ensures before - ids - {id} == before - (ids + {id})
    ensures id in before - ids <==> id in before.Keys - ids
  {
  }

  lemma OneMoreRemoved(before: map<u64, Location>, now: map<u64, Location>, ids: set<u64>, count: nat, id: u64)
    requires Removed(before, now, ids, count)
    ensures Removed(before, now - {id}, ids + {id}, count + if id in now then 1 else 0)
  {
    assert UnsealedAt(RemovedSeal, ids, 0);
    DropOneMore(before, ids, id);
    CountOneMore(ids, before.Keys, id);
  }

  lemma OneMoreId(ids: seq<u64>, i: nat)
    requires i < |ids|
    ensures SetOf(ids[..i + 1]) == SetOf(ids[..i]) + {ids[i]}
  {
    assert ids[..i + 1] == ids[..i] + [ids[i]];
  }

  lemma {:induction false} SubsetIsSmaller<T>(a: set<T>, b: set<T>)
    requires a <= b
    ensures |a| <= |b|
  {
    assert b == a + (b - a);
  }

  /** Nothing that a generation stood for is forgotten or changed. */
  ghost predicate Remembers(now: map<u64, Contents>, before: map<u64, Contents>) {
    forall g :: g in before ==> g in now && now[g] == before[g]
  }

  lemma SortedCandidates(disk: Disk, candidates: seq<Candidate>, le: (Candidate, Candidate) -> bool)
    requires TotalOrder(disk.pathLe) && forall a, b :: le(a, b) <==> disk.pathLe(a.path, b.path)
    ensures PathsApart(DropRepeats(Sort(candidates, le))) && PathsSorted(disk.pathLe, DropRepeats(Sort(candidates, le)))
  {
    SortSorts(candidates, le);
    var sorted := Sort(candidates, le);
    forall i, j | 0 <= i < j < |sorted| ensures disk.pathLe(sorted[i].path, sorted[j].path) {
      assert le(sorted[i], sorted[j]);
    }
    RepeatsAreNeighbours(disk.pathLe, sorted);
  }
}
