/** Ancestor conflicts: one scan over the sorted paths with a stack of directories finds what comparing
    every source with every other would find. */
module Ancestors {
  import opened Primitives
  import opened Sorting
  import opened Execution
  import opened Sequence

  // A path is the sequence of its components.
  type Path = seq<Name>

  datatype Selected = Selected(path: Path, id: u64, isDirectory: bool)

  /** Paths compare component by component, an ancestor before its descendants. */
  predicate PathLess(a: Path, b: Path) {
    if a == [] then b != []
    else b != [] && (NameLess(a[0], b[0]) || (a[0] == b[0] && PathLess(a[1..], b[1..])))
  }

  lemma {:induction false} PathLessIsTransitive(a: Path, b: Path, c: Path)
    requires PathLess(a, b) && PathLess(b, c)
    ensures PathLess(a, c)
  {
    if a != [] {
      if NameLess(a[0], b[0]) && NameLess(b[0], c[0]) {
        NameLessIsTransitive(a[0], b[0], c[0]);
      } else if a[0] == b[0] == c[0] && PathLess(a[1..], b[1..]) && PathLess(b[1..], c[1..]) {
        PathLessIsTransitive(a[1..], b[1..], c[1..]);
      }
    }
  }

  lemma {:induction false} PathLessIsTotal(a: Path, b: Path)
    ensures PathLess(a, b) || PathLess(b, a) || a == b
  {
    if a != [] && b != [] {
      NameLessIsTotal(a[0], b[0]);
      if a[0] == b[0] {
        PathLessIsTotal(a[1..], b[1..]);
        assert a == [a[0]] + a[1..] && b == [b[0]] + b[1..];
      }
    }
  }

  lemma {:induction false} PathLessIsIrreflexive(a: Path)
    ensures !PathLess(a, a)
  {
    if a != [] {
      NameLessIsIrreflexive(a[0]);
      PathLessIsIrreflexive(a[1..]);
    }
  }

  lemma {:induction false} AncestorsComeFirst(a: Path, b: Path)
    requires a < b
    ensures PathLess(a, b)
  {
    if a != [] {
      AncestorsComeFirst(a[1..], b[1..]);
    }
  }

  lemma ProperlyInside(a: Path, b: Path)
    requires a <= b && PathLess(a, b)
    ensures a < b
  {
    if |a| == |b| {
      assert a == b;
      PathLessIsIrreflexive(a);
    }
  }

  /** Subtrees are contiguous: whatever lies between a directory and one of its descendants is inside it. */
  lemma {:induction false} SubtreesAreContiguous(directory: Path, between: Path, descendant: Path)
    requires directory <= descendant
    requires directory == between || PathLess(directory, between)
    requires between == descendant || PathLess(between, descendant)
    ensures directory <= between
  {
    if directory != [] && directory != between {
      if NameLess(directory[0], between[0]) && between != descendant && NameLess(between[0], descendant[0]) {
        NameLessIsTransitive(directory[0], between[0], descendant[0]);
      }
      NameLessIsIrreflexive(directory[0]);
      assert directory[0] == between[0];
      SubtreesAreContiguous(directory[1..], between[1..], descendant[1..]);
      assert directory == [directory[0]] + directory[1..] && between == [between[0]] + between[1..];
    }
  }

  predicate SelectedLe(a: Selected, b: Selected) {
    !PathLess(b.path, a.path)
  }

  lemma SelectedLeIsPreorder()
    ensures Preorder(SelectedLe)
  {
    forall x, y ensures SelectedLe(x, y) || SelectedLe(y, x) {
      if PathLess(x.path, y.path) && PathLess(y.path, x.path) {
        PathLessIsTransitive(x.path, y.path, x.path);
        PathLessIsIrreflexive(x.path);
      }
    }
    forall x, y, z | SelectedLe(x, y) && SelectedLe(y, z) ensures SelectedLe(x, z) {
      PathLessIsTotal(x.path, y.path);
      PathLessIsTotal(y.path, z.path);
      if PathLess(z.path, x.path) {
        if PathLess(x.path, y.path) {
          PathLessIsTransitive(z.path, x.path, y.path);
        }
      }
    }
  }

  // ---------------------------------------------------------------- the quadratic definition

  ghost predicate InConflict(selected: set<Selected>, s: Selected) {
    exists other :: other in selected && other != s &&
      ((other.isDirectory && other.path < s.path) || (s.isDirectory && s.path < other.path))
  }

  /** A source is in conflict if another selected directory contains it, or if it is a directory that
      contains another selected source. */
  ghost function Conflicts(selected: set<Selected>): set<u64> {
    set s | s in selected && InConflict(selected, s) :: s.id
  }

  ghost predicate Ascending(sorted: seq<Selected>) {
    forall i, j :: 0 <= i < j < |sorted| ==> PathLess(sorted[i].path, sorted[j].path)
  }

  ghost function SetOf(s: seq<Selected>): set<Selected> {
    set x | x in s
  }

  /** The stack: exactly the directories among the scanned sources that contain `path`, outermost first. */
  ghost predicate Holds(scanned: seq<Selected>, stack: seq<Selected>, path: Path) {
    forall x {:trigger UnsealedAt(HoldsSeal, stack, x)} :: UnsealedAt(HoldsSeal, stack, x) ==> IsHeld(scanned, stack, path)
  }

  ghost predicate IsHeld(scanned: seq<Selected>, stack: seq<Selected>, path: Path) {
    && (forall i, j :: 0 <= i < j < |stack| ==> stack[i].path < stack[j].path)
    && (forall s :: s in stack <==> s in scanned && s.isDirectory && s.path <= path)
  }

  /** Every scanned source comes before `next`. */
  ghost predicate AllBefore(scanned: seq<Selected>, next: Selected) {
    forall s :: s in scanned ==> PathLess(s.path, next.path)
  }

  /** Popping the directories that do not contain the next path leaves exactly those that do. */
  lemma PoppedRight(scanned: seq<Selected>, stack: seq<Selected>, last: Path, next: Selected, kept: nat)
    requires Holds(scanned, stack, last) && kept <= |stack| && AllBefore(scanned, next)
    requires forall s :: s in scanned ==> s.path == last || PathLess(s.path, last)
    requires last == next.path || PathLess(last, next.path)
    requires kept == 0 || stack[kept - 1].path <= next.path
    requires forall i :: kept <= i < |stack| ==> !(stack[i].path <= next.path)
    ensures Holds(scanned, stack[..kept], next.path)
  {
    var rest := stack[..kept];
    forall s | s in scanned && s.isDirectory && s.path <= next.path ensures s in rest {
      NoneIsLost(scanned, stack, last, next, kept, s);
    }
    forall i | 0 <= i < |rest| ensures rest[i] in scanned && rest[i].isDirectory && rest[i].path <= next.path {
      RestContains(scanned, stack, last, next, kept, i);
    }
    assert forall i, j :: 0 <= i < j < |rest| ==> rest[i].path < rest[j].path by {
      assert UnsealedAt(HoldsSeal, stack, 0);
    }
    HeldTogether(scanned, rest, next.path);
  }

  lemma HeldTogether(scanned: seq<Selected>, stack: seq<Selected>, path: Path)
    requires forall s :: s in scanned && s.isDirectory && s.path <= path ==> s in stack
    requires forall i :: 0 <= i < |stack| ==> stack[i] in scanned && stack[i].isDirectory && stack[i].path <= path
    requires forall i, j :: 0 <= i < j < |stack| ==> stack[i].path < stack[j].path
    ensures Holds(scanned, stack, path)
  {
  }

  lemma RestContains(scanned: seq<Selected>, stack: seq<Selected>, last: Path, next: Selected, kept: nat, i: nat)
    requires Holds(scanned, stack, last) && i < kept <= |stack| && stack[kept - 1].path <= next.path
    ensures stack[i] in scanned && stack[i].isDirectory && stack[i].path <= next.path
  {
    assert UnsealedAt(HoldsSeal, stack, 0);
    assert stack[i] in stack;
    assert i == kept - 1 || stack[i].path < stack[kept - 1].path;
  }

  lemma NoneIsLost(scanned: seq<Selected>, stack: seq<Selected>, last: Path, next: Selected, kept: nat, s: Selected)
    requires Holds(scanned, stack, last) && kept <= |stack|
    requires s in scanned && s.isDirectory && s.path <= next.path && (s.path == last || PathLess(s.path, last))
    requires last == next.path || PathLess(last, next.path)
    requires forall i :: kept <= i < |stack| ==> !(stack[i].path <= next.path)
    ensures s in stack[..kept]
  {
    assert UnsealedAt(HoldsSeal, stack, 0);
    SubtreesAreContiguous(s.path, last, next.path);
    var i :| 0 <= i < |stack| && stack[i] == s;
    assert stack[..kept][i] == s;
  }

  /** The next source adds the innermost directory around it, and itself: all outer directories are in
      conflict already, because of the ones inside them. */
  lemma NextConflicts(scanned: seq<Selected>, stack: seq<Selected>, next: Selected)
    requires Holds(scanned, stack, next.path) && AllBefore(scanned, next)
    ensures Conflicts(SetOf(scanned + [next])) ==
              Conflicts(SetOf(scanned)) + if stack == [] then {} else {stack[|stack| - 1].id, next.id}
  {
    assert UnsealedAt(HoldsSeal, stack, 0);
    var before, after := SetOf(scanned), SetOf(scanned + [next]);
    assert after == before + {next};
    PathLessIsIrreflexive(next.path);
    assert InConflict(after, next) <==> stack != [] by {
      NextIsInside(scanned, stack, next);
    }
    forall s | s in scanned
      ensures InConflict(after, s) <==> InConflict(before, s) || (stack != [] && s == stack[|stack| - 1])
    {
      OuterDirectoriesConflict(scanned, stack, next, s);
    }
    var added := if stack == [] then {} else {stack[|stack| - 1].id, next.id};
    forall id ensures id in Conflicts(after) <==> id in Conflicts(before) + added {
      if id in Conflicts(after) {
        var s :| s in after && InConflict(after, s) && s.id == id;
        if s != next && InConflict(before, s) {
          assert s in before;
        }
      }
      if id in Conflicts(before) {
        var s :| s in before && InConflict(before, s) && s.id == id;
        assert s in after && InConflict(after, s);
      }
      if stack != [] {
        var top := stack[|stack| - 1];
        assert top in stack && top in after && InConflict(after, top) && InConflict(after, next);
      }
    }
  }

  lemma NextIsInside(scanned: seq<Selected>, stack: seq<Selected>, next: Selected)
    requires Holds(scanned, stack, next.path) && AllBefore(scanned, next)
    ensures InConflict(SetOf(scanned + [next]), next) <==> stack != []
  {
    assert UnsealedAt(HoldsSeal, stack, 0);
    var after := SetOf(scanned + [next]);
    PathLessIsIrreflexive(next.path);
    if stack != [] {
      var top := stack[|stack| - 1];
      assert top in stack && top in scanned && top in after;
      ProperlyInside(top.path, next.path);
    }
    if InConflict(after, next) {
      var other :| other in after && other != next &&
        ((other.isDirectory && other.path < next.path) || (next.isDirectory && next.path < other.path));
      assert other in scanned;
      NotBothWays(next.path, other.path);
      assert other in stack;
    }
  }

  lemma NotBothWays(a: Path, b: Path)
    requires PathLess(b, a)
    ensures !(a < b)
  {
    if a < b {
      AncestorsComeFirst(a, b);
      PathLessIsTransitive(a, b, a);
      PathLessIsIrreflexive(a);
    }
  }

  lemma OuterDirectoriesConflict(scanned: seq<Selected>, stack: seq<Selected>, next: Selected, s: Selected)
    requires Holds(scanned, stack, next.path) && AllBefore(scanned, next) && s in scanned
    ensures InConflict(SetOf(scanned + [next]), s) <==> InConflict(SetOf(scanned), s) || (stack != [] && s == stack[|stack| - 1])
  {
    assert UnsealedAt(HoldsSeal, stack, 0);
    var before, after := SetOf(scanned), SetOf(scanned + [next]);
    PathLessIsIrreflexive(next.path);
    NotBothWays(next.path, s.path);
    if s in stack {
      var i :| 0 <= i < |stack| && stack[i] == s;
      if i < |stack| - 1 {
        var inner := stack[i + 1];
        assert inner in stack && inner in before && s.path < inner.path;
        assert InConflict(before, s);
      } else {
        assert next in after;
        ProperlyInside(s.path, next.path);
      }
    } else if InConflict(after, s) {
      var other :| other in after && other != s &&
        ((other.isDirectory && other.path < s.path) || (s.isDirectory && s.path < other.path));
      assert other in before;
    }
    if InConflict(before, s) {
      var other :| other in before && other != s &&
        ((other.isDirectory && other.path < s.path) || (s.isDirectory && s.path < other.path));
      assert other in after;
    }
  }

  ghost predicate PathsDiffer(selected: seq<Selected>) {
    forall i, j :: 0 <= i < j < |selected| ==> selected[i].path != selected[j].path
  }

  lemma SortingSelects(selected: seq<Selected>)
    requires PathsDiffer(selected)
    ensures Ascending(Sort(selected, SelectedLe)) && SetOf(Sort(selected, SelectedLe)) == SetOf(selected)
  {
    var sorted := Sort(selected, SelectedLe);
    SelectedLeIsPreorder();
    SortSorts(selected, SelectedLe);
    RearrangedWithoutRepeats(selected, sorted);
    forall s ensures s in sorted <==> s in selected {
      assert s in multiset(sorted) <==> s in multiset(selected);
    }
    forall i, j | 0 <= i < j < |sorted| ensures PathLess(sorted[i].path, sorted[j].path) {
      assert SelectedLe(sorted[i], sorted[j]) && sorted[i] != sorted[j];
      assert sorted[i] in selected && sorted[j] in selected;
      PathLessIsTotal(sorted[i].path, sorted[j].path);
    }
  }

  /** Pops the directories that do not contain the path. */
  method PopTo(full: seq<Selected>, path: Path) returns (stack: seq<Selected>)
    ensures |stack| <= |full| && stack == full[..|stack|]
    ensures stack == [] || stack[|stack| - 1].path <= path
    ensures forall i :: |stack| <= i < |full| ==> !(full[i].path <= path)
  {
    stack := full;
    while stack != [] && !(stack[|stack| - 1].path <= path)
      invariant |stack| <= |full| && stack == full[..|stack|]
      invariant forall i :: |stack| <= i < |full| ==> !(full[i].path <= path)
      decreases |stack|
    {
      stack := stack[..|stack| - 1];
    }
  }

  /** Where the scan stands before source `k`. */
  ghost predicate Scanned(sorted: seq<Selected>, k: nat, stack: seq<Selected>, conflicts: set<u64>)
    requires k <= |sorted|
  {
    forall x {:trigger UnsealedAt(ScannedSeal, conflicts, x)} :: UnsealedAt(ScannedSeal, conflicts, x) ==>
      HasScanned(sorted, k, stack, conflicts)
  }

  ghost predicate HasScanned(sorted: seq<Selected>, k: nat, stack: seq<Selected>, conflicts: set<u64>)
    requires k <= |sorted|
  {
    && Holds(sorted[..k], stack, if k == 0 then [] else sorted[k - 1].path)
    && conflicts == Conflicts(SetOf(sorted[..k]))
  }

  lemma BottomWasScanned(scanned: seq<Selected>, stack: seq<Selected>, path: Path)
    requires Holds(scanned, stack, path) && stack != []
    ensures stack[0] in scanned
  {
    assert UnsealedAt(HoldsSeal, stack, 0);
    assert stack[0] in stack;
  }

  lemma PoppingHolds(sorted: seq<Selected>, k: nat, full: seq<Selected>, conflicts: set<u64>, kept: nat)
    requires Ascending(sorted) && k < |sorted| && HasScanned(sorted, k, full, conflicts) && kept <= |full|
    requires kept == 0 || full[kept - 1].path <= sorted[k].path
    requires forall i :: kept <= i < |full| ==> !(full[i].path <= sorted[k].path)
    ensures AllBefore(sorted[..k], sorted[k]) && Holds(sorted[..k], full[..kept], sorted[k].path)
  {
    if k == 0 {
      assert forall s :: s !in sorted[..0];
      if full != [] {
        BottomWasScanned(sorted[..k], full, []);
      }
    } else {
      forall s | s in sorted[..k] ensures s.path == sorted[k - 1].path || PathLess(s.path, sorted[k - 1].path) {
        var i :| 0 <= i < k && sorted[i] == s;
      }
      PoppedRight(sorted[..k], full, sorted[k - 1].path, sorted[k], kept);
    }
  }

  method ScanOne(sorted: seq<Selected>, k: nat, full: seq<Selected>, before: set<u64>)
    returns (stack: seq<Selected>, conflicts: set<u64>)
    requires Ascending(sorted) && k < |sorted| && Scanned(sorted, k, full, before)
    ensures Scanned(sorted, k + 1, stack, conflicts)
  {
    assert UnsealedAt(ScannedSeal, before, 0);
    var next := sorted[k];
    conflicts := before;
    stack := PopTo(full, next.path);
    PoppingHolds(sorted, k, full, before, |stack|);
    NextConflicts(sorted[..k], stack, next);
    PushKeeps(sorted[..k], stack, next);
    assert sorted[..k + 1] == sorted[..k] + [next];
    if stack != [] {
      conflicts := conflicts + {stack[|stack| - 1].id, next.id};
    }
    if next.isDirectory {
      stack := stack + [next];
    }
  }

  /** The scan: sorts the sources, keeps a stack of the directories around the current path, and reports
      what the quadratic definition reports. */
  method AncestorConflictsLexical(selected: seq<Selected>) returns (conflicts: set<u64>)
    requires PathsDiffer(selected)
    ensures conflicts == Conflicts(SetOf(selected))
  {
    var sorted := Sort(selected, SelectedLe);
    SortingSelects(selected);
    conflicts := {};
    var stack: seq<Selected> := [];
    assert Scanned(sorted, 0, stack, conflicts) by {
      assert forall s :: s !in sorted[..0];
      assert SetOf(sorted[..0]) == {};
    }
    for k := 0 to |sorted|
      invariant Scanned(sorted, k, stack, conflicts)
    {
      stack, conflicts := ScanOne(sorted, k, stack, conflicts);
    }
    assert UnsealedAt(ScannedSeal, conflicts, 0);
    assert sorted[..|sorted|] == sorted;
  }

  lemma PushKeeps(scanned: seq<Selected>, stack: seq<Selected>, next: Selected)
    requires Holds(scanned, stack, next.path) && AllBefore(scanned, next)
    ensures Holds(scanned + [next], if next.isDirectory then stack + [next] else stack, next.path)
  {
    assert UnsealedAt(HoldsSeal, stack, 0);
    PathLessIsIrreflexive(next.path);
    forall i | 0 <= i < |stack| ensures stack[i].path < next.path {
      assert stack[i] in stack;
      ProperlyInside(stack[i].path, next.path);
    }
  }
}
