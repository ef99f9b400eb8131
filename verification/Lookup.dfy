/** Reading the filesystem: identities, and the temporary names that are still free. */
module Lookup {
  import opened Primitives
  import opened Execution
  import opened Hex
  import opened Machine

  const MAX_TEMPORARY_NAME_ATTEMPTS: u32 := 1_024

  type Lookup<+T> = Result<T, ExecutionFsErrorKind>

  /** A tree that may also be unreadable in places. */
  datatype FileSystem = FileSystem(tree: Tree, parents: Parents, trouble: Location -> Option<ExecutionFsErrorKind>)
  {
    /** Trouble is never disguised as an absent or an unsupported entry. */
    ghost predicate Honest() {
      forall at :: trouble(at).Some? ==> !trouble(at).value.SourceUnavailable? && !trouble(at).value.UnsupportedEntry?
    }

    ghost predicate Untroubled() {
      forall at :: trouble(at).None?
    }

    function Identity(at: Location): Lookup<ExecutionIdentity> {
      if trouble(at).Some? then Failure(trouble(at).value) else IdentityIn(tree, at)
    }

    function IdentityInParent(at: Location, parentIdentity: ExecutionIdentity): Lookup<ExecutionIdentity> {
      if at.parent !in parents then Failure(SourceUnavailable)
      else if parents[at.parent] != parentIdentity then Failure(StaleIdentity)
      else Identity(at)
    }
  }

  datatype TemporaryNameError = TemporaryNameExhausted | TemporaryNameTrouble(kind: ExecutionFsErrorKind)

  function TemporaryName(planId: u64, sourceId: u64, attempt: u32): (r: Name) {
    Ascii(".renamewright-") + Padded(planId, 16) + Ascii("-") + Padded(sourceId, 16) + Ascii("-") + Padded(attempt, 4) + Ascii(".tmp")
  }

  /** A temporary name tells the plan, the source and the attempt that it is for. */
  lemma TemporaryNamesTell(planId: u64, sourceId: u64, attempt: u32)
    ensures var name := TemporaryName(planId, sourceId, attempt);
            && |name| == 56 && name[..14] == Ascii(".renamewright-") && name[30] == name[47] == 0x2D && name[52..] == Ascii(".tmp")
            && Parse(name[14..30]) == Some(planId) && Parse(name[31..47]) == Some(sourceId)
            && (attempt < 0x1_0000 ==> Parse(name[48..52]) == Some(attempt))
  {
    var name := TemporaryName(planId, sourceId, attempt);
    assert name[14..30] == Padded(planId, 16) && name[31..47] == Padded(sourceId, 16) && name[48..52] == Padded(attempt, 4);
    SixteenDigits();
    ParsePadded(planId, 16);
    ParsePadded(sourceId, 16);
    FourDigits();
    if attempt < 0x1_0000 {
      ParsePadded(attempt, 4);
    }
  }

  /** Different plans, different sources and different attempts never share a temporary name. */
  lemma TemporaryNamesDiffer(p: u64, q: u64, a: u64, b: u64, i: u32, j: u32)
    ensures TemporaryName(p, a, i) == TemporaryName(q, b, j) ==>
              p == q && a == b && (i < MAX_TEMPORARY_NAME_ATTEMPTS && j < MAX_TEMPORARY_NAME_ATTEMPTS ==> i == j)
  {
    TemporaryNamesTell(p, a, i);
    TemporaryNamesTell(q, b, j);
  }

  // ---------------------------------------------------------------- crowded directories

  ghost function EntriesIn(tree: Tree, parent: NativePath): set<Location> {
    set at | at in tree && at.parent == parent
  }

  /** Every directory has fewer entries than temporary names are tried. */
  ghost predicate Uncrowded(fs: FileSystem) {
    forall parent :: |EntriesIn(fs.tree, parent)| < 1024
  }

  ghost function Tried(parent: NativePath, planId: u64, sourceId: u64, count: nat): set<Location>
    requires count <= U32_MAX
  {
    if count == 0 then {}
    else Tried(parent, planId, sourceId, count - 1) + {Location(parent, TemporaryName(planId, sourceId, count - 1))}
  }

  lemma {:induction false} TriedAreMany(parent: NativePath, planId: u64, sourceId: u64, count: nat)
    requires count <= MAX_TEMPORARY_NAME_ATTEMPTS
    ensures |Tried(parent, planId, sourceId, count)| == count
    ensures forall at :: at in Tried(parent, planId, sourceId, count) ==>
              exists i: u32 :: i < count && at == Location(parent, TemporaryName(planId, sourceId, i))
  {
    if count > 0 {
      TriedAreMany(parent, planId, sourceId, count - 1);
      var last: u32 := count - 1;
      var next := Location(parent, TemporaryName(planId, sourceId, last));
      if next in Tried(parent, planId, sourceId, count - 1) {
        var i: u32 :| i < count - 1 && next == Location(parent, TemporaryName(planId, sourceId, i));
        TemporaryNamesDiffer(planId, planId, sourceId, sourceId, i, last);
      }
    }
  }

  /** Only in a crowded directory are all the names taken that are tried for a source. */
  lemma TakenNamesCrowd(tree: Tree, parent: NativePath, planId: u64, sourceId: u64)
    requires forall i: u32 :: i < MAX_TEMPORARY_NAME_ATTEMPTS ==> Location(parent, TemporaryName(planId, sourceId, i)) in tree
    ensures |EntriesIn(tree, parent)| >= 1024
  {
    TriedAreMany(parent, planId, sourceId, MAX_TEMPORARY_NAME_ATTEMPTS);
    var tried, all := Tried(parent, planId, sourceId, MAX_TEMPORARY_NAME_ATTEMPTS), EntriesIn(tree, parent);
    assert all == tried + (all - tried);
  }

  // ---------------------------------------------------------------- the search

  ghost predicate IsTemporaryName(name: Name, planId: u64, sourceId: u64) {
    exists attempt: u32 :: attempt < MAX_TEMPORARY_NAME_ATTEMPTS && name == TemporaryName(planId, sourceId, attempt)
  }

  /** Something is there, a planned source or not. */
  predicate Taken(fs: FileSystem, at: Location) {
    fs.Identity(at).Success? || fs.Identity(at) == Failure(UnsupportedEntry)
  }

  /** The attempts before this one were all taken. */
  ghost predicate TakenBefore(fs: FileSystem, parent: NativePath, planId: u64, sourceId: u64, attempt: nat) {
    forall i: u32 :: i < attempt ==> Taken(fs, Location(parent, TemporaryName(planId, sourceId, i)))
  }

  lemma HonestlyTaken(fs: FileSystem, parent: NativePath, planId: u64, sourceId: u64, attempt: nat)
    requires fs.Honest() && TakenBefore(fs, parent, planId, sourceId, attempt)
    ensures forall i: u32 :: i < attempt ==> Location(parent, TemporaryName(planId, sourceId, i)) in fs.tree
  {
    forall i: u32 | i < attempt ensures Location(parent, TemporaryName(planId, sourceId, i)) in fs.tree {
      assert Taken(fs, Location(parent, TemporaryName(planId, sourceId, i)));
    }
  }

  ghost predicate IsFirstFree(fs: FileSystem, parent: NativePath, planId: u64, sourceId: u64, attempt: u32) {
    && attempt < MAX_TEMPORARY_NAME_ATTEMPTS && TakenBefore(fs, parent, planId, sourceId, attempt)
    && fs.Identity(Location(parent, TemporaryName(planId, sourceId, attempt))) == Failure(SourceUnavailable)
  }

  /** The disk does not tell about this attempt, and the ones before it were all taken. */
  ghost predicate IsFirstSilent(fs: FileSystem, parent: NativePath, planId: u64, sourceId: u64, attempt: u32, kind: ExecutionFsErrorKind) {
    && attempt < MAX_TEMPORARY_NAME_ATTEMPTS && TakenBefore(fs, parent, planId, sourceId, attempt)
    && fs.Identity(Location(parent, TemporaryName(planId, sourceId, attempt))) == Failure(kind)
    && !kind.SourceUnavailable? && !kind.UnsupportedEntry?
  }

  /** The first attempt at which nothing is; it is given up only if every attempt is taken. */
  method AvailableTemporaryName(fs: FileSystem, parent: NativePath, planId: u64, sourceId: u64)
    returns (r: Result<Name, TemporaryNameError>)
    ensures r.Success? ==> exists attempt: u32 ::
              IsFirstFree(fs, parent, planId, sourceId, attempt) && r.value == TemporaryName(planId, sourceId, attempt)
    ensures r.Success? ==> IsTemporaryName(r.value, planId, sourceId)
    ensures r.Success? ==> fs.Identity(Location(parent, r.value)) == Failure(SourceUnavailable)
    ensures r.Failure? && r.error.TemporaryNameExhausted? ==> TakenBefore(fs, parent, planId, sourceId, MAX_TEMPORARY_NAME_ATTEMPTS)
    ensures fs.Honest() && r.Failure? && r.error.TemporaryNameExhausted? ==>
              forall i: u32 :: i < MAX_TEMPORARY_NAME_ATTEMPTS ==> Location(parent, TemporaryName(planId, sourceId, i)) in fs.tree
    ensures fs.Honest() && r.Failure? && r.error.TemporaryNameExhausted? ==> |EntriesIn(fs.tree, parent)| >= 1024
    ensures r.Failure? && r.error.TemporaryNameTrouble? ==>
              exists attempt: u32 :: IsFirstSilent(fs, parent, planId, sourceId, attempt, r.error.kind)
    ensures fs.Untroubled() && r.Failure? ==> r.error.TemporaryNameExhausted?
  {
    for attempt := 0 to MAX_TEMPORARY_NAME_ATTEMPTS
      invariant TakenBefore(fs, parent, planId, sourceId, attempt)
    {
      var candidate := TemporaryName(planId, sourceId, attempt);
      match fs.Identity(Location(parent, candidate)) {
        case Success(_) =>
        case Failure(SourceUnavailable) =>
          assert IsFirstFree(fs, parent, planId, sourceId, attempt);
          return Success(candidate);
        case Failure(UnsupportedEntry) =>
        case Failure(kind) =>
          assert IsFirstSilent(fs, parent, planId, sourceId, attempt, kind);
          return Failure(TemporaryNameTrouble(kind));
      }
    }
    if fs.Honest() {
      HonestlyTaken(fs, parent, planId, sourceId, MAX_TEMPORARY_NAME_ATTEMPTS);
      TakenNamesCrowd(fs.tree, parent, planId, sourceId);
    }
    return Failure(TemporaryNameExhausted);
  }
}
