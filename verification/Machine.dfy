/** The outside world of a transaction: a map filesystem, the journal file with its last sync, the
    faults that both may throw, and a record of every state the two have been in. */
module Machine {
  import opened Primitives
  import opened Execution

  datatype Location = Location(parent: NativePath, name: Name)

  // Files and directories are supported; links and special files are not.
  datatype Node = Node(identity: ExecutionIdentity, supported: bool)

  type Tree = map<Location, Node>

  datatype ExecutionFsErrorKind =
    | InvalidName
    | SourceUnavailable
    | UnsupportedEntry
    | UnsupportedPlatform
    | UnsupportedFileSystem
    | StaleIdentity
    | DestinationExists
    | AccessDenied
    | SharingViolation
    | PostRenameIdentityUnavailable
    | PostRenameIdentityMismatch
    | IoFailure

  /** The two errors that leave open whether the rename happened. */
  predicate IsAmbiguous(kind: ExecutionFsErrorKind) {
    kind.PostRenameIdentityUnavailable? || kind.PostRenameIdentityMismatch?
  }

  /** A rename within one directory, of an entry with a known identity. */
  datatype Move = Move(parent: NativePath, source: Name, target: Name,
                       parentIdentity: ExecutionIdentity, identity: ExecutionIdentity)
  {
    function From(): Location { Location(parent, source) }
    function To(): Location { Location(parent, target) }
    function Reverse(): Move { Move(parent, target, source, parentIdentity, identity) }
  }

  type Parents = map<NativePath, ExecutionIdentity>

  function IdentityIn(tree: Tree, at: Location): Result<ExecutionIdentity, ExecutionFsErrorKind> {
    if at !in tree then Failure(SourceUnavailable)
    else if !tree[at].supported then Failure(UnsupportedEntry)
    else Success(tree[at].identity)
  }

  function IdentityInParent(tree: Tree, parents: Parents, at: Location, parentIdentity: ExecutionIdentity)
    : Result<ExecutionIdentity, ExecutionFsErrorKind>
  {
    if at.parent !in parents then Failure(SourceUnavailable)
    else if parents[at.parent] != parentIdentity then Failure(StaleIdentity)
    else IdentityIn(tree, at)
  }

  /** Why a rename that never replaces must be refused, if it must. */
  function Obstacle(tree: Tree, parents: Parents, move: Move): Option<ExecutionFsErrorKind> {
    if move.parent !in parents then Some(SourceUnavailable)
    else if parents[move.parent] != move.parentIdentity then Some(StaleIdentity)
    else if move.source == move.target then Some(InvalidName)
    else match IdentityIn(tree, move.From())
      case Failure(kind) => Some(kind)
      case Success(identity) =>
        if identity != move.identity then Some(StaleIdentity)
        else if move.To() in tree then Some(DestinationExists)
        else None
  }

  predicate Enabled(tree: Tree, parents: Parents, move: Move) {
    Obstacle(tree, parents, move).None?
  }

  function Moved(tree: Tree, move: Move): Tree
    requires move.From() in tree
  {
    (tree - {move.From()})[move.To() := tree[move.From()]]
  }

  /** An error means that no rename occurred, except for the two ambiguous kinds. */
  datatype RenameFault = NoFault | Fault(kind: ExecutionFsErrorKind, performed: bool)

  /** What a rename answers: an obstacle or a fault refuses it, and only one that could be made can end in doubt. */
  function Attempt(tree: Tree, parents: Parents, move: Move, fault: RenameFault): Result<ExecutionIdentity, ExecutionFsErrorKind> {
    var obstacle := Obstacle(tree, parents, move);
    if fault.Fault? && (!IsAmbiguous(fault.kind) || obstacle.None?) then Failure(fault.kind)
    else if obstacle.Some? then Failure(obstacle.value)
    else Success(move.identity)
  }

  /** A failed write leaves some bytes of the frame behind, possibly all of them. */
  datatype WriteFault = Whole | Cut(ioKind: nat, kept: nat)

  /** One state of the disk: the tree, the journal bytes, how many of them the last successful sync
      covers, and the whole records that those bytes hold. */
  datatype Moment = Moment(tree: Tree, file: seq<u8>, syncedLength: nat,
                           written: seq<JournalRecord>, durable: nat, torn: seq<u8>)

  class Machine {
    const parents: Parents
    const renameFaults: nat -> RenameFault
    const writeFaults: nat -> WriteFault
    const syncFaults: nat -> Option<nat>
    var tree: Tree
    var file: seq<u8>
    var renames: nat
    var writes: nat
    var syncs: nat
    ghost var syncedLength: nat
    ghost var written: seq<JournalRecord>
    ghost var durable: nat
    ghost var torn: seq<u8>
    ghost var history: seq<Moment>

    /** A machine with any tree and an empty journal file, and any faults to come. */
    constructor (tree: Tree, parents: Parents, renameFaults: nat -> RenameFault, writeFaults: nat -> WriteFault,
                 syncFaults: nat -> Option<nat>)
      ensures this.tree == tree && this.parents == parents && file == [] && syncedLength == 0
      ensures this.renameFaults == renameFaults && this.writeFaults == writeFaults && this.syncFaults == syncFaults
      ensures written == [] && durable == 0 && torn == [] && history == []
      ensures renames == 0 && writes == 0 && syncs == 0
    {
      this.tree, this.parents, file, syncedLength := tree, parents, [], 0;
      this.renameFaults, this.writeFaults, this.syncFaults := renameFaults, writeFaults, syncFaults;
      renames, writes, syncs := 0, 0, 0;
      written, durable, torn, history := [], 0, [], [];
    }

    /** The machine after a restart finds a tree and a journal file; `now` says what is known of the two. */
    constructor Restart(tree: Tree, file: seq<u8>, parents: Parents, renameFaults: nat -> RenameFault,
                        writeFaults: nat -> WriteFault, syncFaults: nat -> Option<nat>, ghost now: Moment)
      requires now.tree == tree && now.file == file
      ensures this.parents == parents && Now() == now && history == []
      ensures this.renameFaults == renameFaults && this.writeFaults == writeFaults && this.syncFaults == syncFaults
      ensures renames == 0 && writes == 0 && syncs == 0
    {
      this.tree, this.file, this.parents := tree, file, parents;
      this.renameFaults, this.writeFaults, this.syncFaults := renameFaults, writeFaults, syncFaults;
      renames, writes, syncs := 0, 0, 0;
      syncedLength, written, durable, torn, history := now.syncedLength, now.written, now.durable, now.torn, [];
    }

    ghost function Now(): Moment
      reads this
    {
      Moment(tree, file, syncedLength, written, durable, torn)
    }

    /** Nothing will go wrong with the journal file. */
    ghost predicate Writable() {
      forall i :: writeFaults(i).Whole? && syncFaults(i).None?
    }

    method RenameNoReplaceInParent(move: Move) returns (r: Result<ExecutionIdentity, ExecutionFsErrorKind>)
      modifies this`tree, this`renames, this`history
      ensures history == old(history) + [Now()]
      ensures r.Success? ==> Enabled(old(tree), parents, move) && tree == Moved(old(tree), move) && r.value == move.identity
      ensures r.Failure? && !IsAmbiguous(r.error) ==> tree == old(tree)
      ensures r.Failure? && IsAmbiguous(r.error) ==>
                tree == old(tree) || (Enabled(old(tree), parents, move) && tree == Moved(old(tree), move))
      ensures r == Attempt(old(tree), parents, move, renameFaults(old(renames))) && renames == old(renames) + 1
    {
      var fault := renameFaults(renames);
      renames := renames + 1;
      var obstacle := Obstacle(tree, parents, move);
      if fault.Fault? && (!IsAmbiguous(fault.kind) || obstacle.None?) {
        if IsAmbiguous(fault.kind) && fault.performed {
          tree := Moved(tree, move);
        }
        r := Failure(fault.kind);
      } else if obstacle.Some? {
        r := Failure(obstacle.value);
      } else {
        tree := Moved(tree, move);
        r := Success(move.identity);
      }
      history := history + [Now()];
    }

    method WriteFrame(frame: seq<u8>, ghost record: JournalRecord) returns (r: Result<(), nat>)
      requires torn == []
      modifies this`file, this`writes, this`written, this`torn, this`history
      ensures history == old(history) + [Now()]
      ensures r.Success? ==> file == old(file) + frame && written == old(written) + [record] && torn == []
      ensures r.Failure? ==>
                || (file == old(file) + frame && written == old(written) + [record] && torn == [])
                || (file == old(file) + torn && torn < frame && written == old(written))
      ensures var fault := writeFaults(old(writes)); r == if fault.Cut? then Failure(fault.ioKind) else Success(())
      ensures writes == old(writes) + 1
    {
      var fault := writeFaults(writes);
      writes := writes + 1;
      if fault.Cut? && fault.kept < |frame| {
        file := file + frame[..fault.kept];
        torn := frame[..fault.kept];
      } else {
        file := file + frame;
        written := written + [record];
      }
      r := if fault.Cut? then Failure(fault.ioKind) else Success(());
      history := history + [Now()];
    }

    method SyncAll() returns (r: Result<(), nat>)
      modifies this`syncedLength, this`syncs, this`durable, this`history
      ensures history == old(history) + [Now()]
      ensures r.Success? ==> syncedLength == |file| && durable == |written|
      ensures r.Failure? ==> syncedLength == old(syncedLength) && durable == old(durable)
      ensures var fault := syncFaults(old(syncs)); r == if fault.Some? then Failure(fault.value) else Success(())
      ensures syncs == old(syncs) + 1
    {
      var fault := syncFaults(syncs);
      syncs := syncs + 1;
      if fault.Some? {
        r := Failure(fault.value);
      } else {
        syncedLength := |file|;
        durable := |written|;
        r := Success(());
      }
      history := history + [Now()];
    }
  }
}
