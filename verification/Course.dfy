/** What every run comes to: the outcome of the two-phase executor as a function of the faults ahead of it, and
    what is left of that when only renames can fail. */
module Course {
  import opened Primitives
  import opened Execution
  import opened RecordCodec
  import opened Frames
  import opened Machine
  import opened Appender
  import opened Transaction

  datatype ExecutionRecoveryReason =
    | JournalFailed(kind: JournalStorageErrorKind)
    | AmbiguousFilesystem(fsKind: ExecutionFsErrorKind)
    | RollbackFailed(fsKind: ExecutionFsErrorKind)
    | InvalidFrozenPlan

  datatype ExecutionOutcome =
    | Finished
    | TakenBack(cause: RollbackCause)
    | NeedsRecovery(direction: ExecutionDirection, stepIndex: Option<nat>, reason: ExecutionRecoveryReason)

  // ---------------------------------------------------------------- with any faults

  /** What comes of taking the first `k` steps back. */
  ghost function TakingBack(run: Run, fates: Fates, spent: Spent, k: nat, cause: RollbackCause): ExecutionOutcome
    requires k <= run.Steps() <= USIZE_MAX
    decreases k, 1
  {
    if k == 0 then
      match Entered(fates, spent, TransactionRolledBack, true)
      case Failure(kind) => NeedsRecovery(Backwards, None, JournalFailed(kind))
      case Success(_) => TakenBack(cause)
    else
      match Entered(fates, spent, RollbackStepPrepared(k - 1), true)
      case Failure(kind) => NeedsRecovery(Backwards, Some(k - 1), JournalFailed(kind))
      case Success(prepared) =>
        var move := ForwardMove(run.plan, k - 1);
        if move.None? then NeedsRecovery(Backwards, Some(k - 1), InvalidFrozenPlan)
        else
          var renamed := Attempt(run.TreeAfter(k), run.parents, move.value.Reverse(), fates.renames(prepared.renames));
          MovedBack(run, fates, prepared.(renames := prepared.renames + 1), k, cause, renamed)
  }

  /** The same after the rename for step `k - 1` has answered. */
  ghost function MovedBack(run: Run, fates: Fates, spent: Spent, k: nat, cause: RollbackCause,
                           renamed: Result<ExecutionIdentity, ExecutionFsErrorKind>): ExecutionOutcome
    requires 0 < k <= run.Steps() <= USIZE_MAX
    decreases k, 0
  {
    match renamed
    case Success(identity) =>
      (match Entered(fates, spent, RollbackStepCompleted(k - 1, identity), false)
       case Failure(kind) => NeedsRecovery(Backwards, Some(k - 1), JournalFailed(kind))
       case Success(completed) => TakingBack(run, fates, completed, k - 1, cause))
    case Failure(refused) =>
      if IsAmbiguous(refused) then NeedsRecovery(Backwards, Some(k - 1), AmbiguousFilesystem(refused))
      else match Entered(fates, spent, RollbackStepFailed(k - 1), true)
        case Failure(kind) => NeedsRecovery(Backwards, Some(k - 1), JournalFailed(kind))
        case Success(_) => NeedsRecovery(Backwards, Some(k - 1), RollbackFailed(refused))
  }

  /** What comes of a rollback that starts with `k` steps taken. */
  ghost function Undoing(run: Run, fates: Fates, spent: Spent, k: nat, cause: RollbackCause): ExecutionOutcome
    requires k <= run.Steps() <= USIZE_MAX
  {
    match Entered(fates, spent, RollbackStarted(cause), true)
    case Failure(kind) => NeedsRecovery(Backwards, None, JournalFailed(kind))
    case Success(started) => TakingBack(run, fates, started, k, cause)
  }

  /** What comes of trying step `k - 1` again after the rollback had failed there. */
  ghost function Restarting(run: Run, fates: Fates, spent: Spent, k: nat, cause: RollbackCause): ExecutionOutcome
    requires 0 < k <= run.Steps() <= USIZE_MAX
  {
    match Entered(fates, spent, RollbackRecoveryStarted(k - 1), true)
    case Failure(kind) => NeedsRecovery(Backwards, Some(k - 1), JournalFailed(kind))
    case Success(started) => TakingBack(run, fates, started, k, cause)
  }

  /** Where the batch that is announced before step `k` ends. */
  ghost function BatchEnd(version: u16, k: nat, steps: nat): nat
    requires k < steps
  {
    var width := if version >= JOURNAL_SCHEMA_VERSION then FORWARD_JOURNAL_BATCH_STEPS else 1;
    if k + width < steps then k + width else steps
  }

  /** What comes of going on forward when `k` steps are taken and the next batch is due. */
  ghost function Going(run: Run, fates: Fates, spent: Spent, k: nat, shouldCancel: nat -> bool): ExecutionOutcome
    requires k <= run.Steps() <= USIZE_MAX
    decreases run.Steps() - k, 1, 0
  {
    if k == run.Steps() then
      match Entered(fates, spent, TransactionCompleted, true)
      case Failure(kind) => NeedsRecovery(Forwards, None, JournalFailed(kind))
      case Success(_) => ExecutionOutcome.Finished
    else
      var end := BatchEnd(fates.version, k, run.Steps());
      match Entered(fates, spent, if end == k + 1 then ForwardStepPrepared(k) else ForwardBatchPrepared(k, end - k), true)
      case Failure(kind) => NeedsRecovery(Forwards, Some(k), JournalFailed(kind))
      case Success(announced) => Taking(run, fates, announced, k, end, shouldCancel)
  }

  /** The same in the middle of a batch that ends before step `end`. */
  ghost function Taking(run: Run, fates: Fates, spent: Spent, k: nat, end: nat, shouldCancel: nat -> bool): ExecutionOutcome
    requires k <= end <= run.Steps() <= USIZE_MAX
    decreases run.Steps() - k, if k < end then 0 else 2, 1
  {
    if k == end then Going(run, fates, spent, k, shouldCancel)
    else if shouldCancel(k) then Undoing(run, fates, spent, k, Cancelled)
    else
      var move := ForwardMove(run.plan, k);
      if move.None? then NeedsRecovery(Forwards, Some(k), InvalidFrozenPlan)
      else
        var renamed := Attempt(run.TreeAfter(k), run.parents, move.value, fates.renames(spent.renames));
        MovedOn(run, fates, spent.(renames := spent.renames + 1), k, end, shouldCancel, renamed)
  }

  /** The same after the rename for step `k` has answered. */
  ghost function MovedOn(run: Run, fates: Fates, spent: Spent, k: nat, end: nat, shouldCancel: nat -> bool,
                         renamed: Result<ExecutionIdentity, ExecutionFsErrorKind>): ExecutionOutcome
    requires k < end <= run.Steps() <= USIZE_MAX
    decreases run.Steps() - k, 0, 0
  {
    match renamed
    case Success(identity) =>
      (match Entered(fates, spent, ForwardStepCompleted(k, identity), false)
       case Failure(kind) => NeedsRecovery(Forwards, Some(k), JournalFailed(kind))
       case Success(completed) => Taking(run, fates, completed, k + 1, end, shouldCancel))
    case Failure(refused) =>
      if IsAmbiguous(refused) then NeedsRecovery(Forwards, Some(k), AmbiguousFilesystem(refused))
      else Undoing(run, fates, spent, k, ForwardStepFailed(k))
  }

  /** What comes of a plan: its header is entered first, which needs the identity of every directory. */
  ghost function Executing(run: Run, fates: Fates, spent: Spent, shouldCancel: nat -> bool)
    : Result<ExecutionOutcome, JournalStorageErrorKind>
    requires run.Steps() <= USIZE_MAX
  {
    if !HasParentAuthority(run.header) then Failure(InvalidInitialRecord)
    else match Entered(fates, spent, run.header, true)
      case Failure(kind) => Failure(kind)
      case Success(started) => Success(Going(run, fates, started, 0, shouldCancel))
  }

  // ---------------------------------------------------------------- step by step

  /** The outcome when the first `k` steps are to be taken back... */
  ghost predicate Backs(run: Run, fates: Fates, spent: Spent, k: nat, cause: RollbackCause, aim: ExecutionOutcome) {
    forall x {:trigger Unsealed(AimSeal, x)} :: Unsealed(AimSeal, x) ==>
      k <= run.Steps() <= USIZE_MAX && aim == TakingBack(run, fates, spent, k, cause)
  }

  /** ...when the rename that takes step `k - 1` back is due... */
  ghost predicate MovesBack(run: Run, fates: Fates, spent: Spent, k: nat, cause: RollbackCause, aim: ExecutionOutcome) {
    forall x {:trigger Unsealed(AimSeal, x)} :: Unsealed(AimSeal, x) ==>
      && 0 < k <= run.Steps() <= USIZE_MAX && ForwardMove(run.plan, k - 1).Some?
      && var renamed := Attempt(run.TreeAfter(k), run.parents, ForwardMove(run.plan, k - 1).value.Reverse(), fates.renames(spent.renames));
         aim == MovedBack(run, fates, spent.(renames := spent.renames + 1), k, cause, renamed)
  }

  /** ...when it has answered... */
  ghost predicate HasMovedBack(run: Run, fates: Fates, spent: Spent, k: nat, cause: RollbackCause,
                               renamed: Result<ExecutionIdentity, ExecutionFsErrorKind>, aim: ExecutionOutcome) {
    forall x {:trigger Unsealed(AimSeal, x)} :: Unsealed(AimSeal, x) ==>
      0 < k <= run.Steps() <= USIZE_MAX && aim == MovedBack(run, fates, spent, k, cause, renamed)
  }

  /** ...when a rollback is to be started... */
  ghost predicate Undoes(run: Run, fates: Fates, spent: Spent, k: nat, cause: RollbackCause, aim: ExecutionOutcome) {
    forall x {:trigger Unsealed(AimSeal, x)} :: Unsealed(AimSeal, x) ==>
      k <= run.Steps() <= USIZE_MAX && aim == Undoing(run, fates, spent, k, cause)
  }

  /** ...when a failed one is to be tried again... */
  ghost predicate Restarts(run: Run, fates: Fates, spent: Spent, k: nat, cause: RollbackCause, aim: ExecutionOutcome) {
    forall x {:trigger Unsealed(AimSeal, x)} :: Unsealed(AimSeal, x) ==>
      0 < k <= run.Steps() <= USIZE_MAX && aim == Restarting(run, fates, spent, k, cause)
  }

  /** ...when the next batch is due... */
  ghost predicate Goes(run: Run, fates: Fates, spent: Spent, k: nat, shouldCancel: nat -> bool, aim: ExecutionOutcome) {
    forall x {:trigger Unsealed(AimSeal, x)} :: Unsealed(AimSeal, x) ==>
      k <= run.Steps() <= USIZE_MAX && aim == Going(run, fates, spent, k, shouldCancel)
  }

  /** ...in the middle of a batch... */
  ghost predicate TakesOn(run: Run, fates: Fates, spent: Spent, k: nat, end: nat, shouldCancel: nat -> bool, aim: ExecutionOutcome) {
    forall x {:trigger Unsealed(AimSeal, x)} :: Unsealed(AimSeal, x) ==>
      k <= end <= run.Steps() <= USIZE_MAX && aim == Taking(run, fates, spent, k, end, shouldCancel)
  }

  /** ...and when the rename of step `k` has answered. */
  ghost predicate HasMovedOn(run: Run, fates: Fates, spent: Spent, k: nat, end: nat, shouldCancel: nat -> bool,
                             renamed: Result<ExecutionIdentity, ExecutionFsErrorKind>, aim: ExecutionOutcome) {
    forall x {:trigger Unsealed(AimSeal, x)} :: Unsealed(AimSeal, x) ==>
      k < end <= run.Steps() <= USIZE_MAX && aim == MovedOn(run, fates, spent, k, end, shouldCancel, renamed)
  }

  lemma BackIsDone(run: Run, fates: Fates, was: Spent, cause: RollbackCause, now: Spent, r: Result<(), JournalStorageErrorKind>, aim: ExecutionOutcome)
    requires Backs(run, fates, was, 0, cause, aim) && IsEntered(fates, was, now, TransactionRolledBack, true, r)
    ensures aim == match r case Success(_) => TakenBack(cause) case Failure(kind) => NeedsRecovery(Backwards, None, JournalFailed(kind))
  {
    assert Unsealed(AimSeal, 0);
  }

  lemma RestartIsAnnounced(run: Run, fates: Fates, was: Spent, k: nat, cause: RollbackCause, now: Spent,
                           r: Result<(), JournalStorageErrorKind>, aim: ExecutionOutcome)
    requires 0 < k <= USIZE_MAX && Restarts(run, fates, was, k, cause, aim)
    requires IsEntered(fates, was, now, RollbackRecoveryStarted(k - 1), true, r)
    ensures match r case Success(_) => Backs(run, fates, now, k, cause, aim)
            case Failure(kind) => aim == NeedsRecovery(Backwards, Some(k - 1), JournalFailed(kind))
  {
    assert Unsealed(AimSeal, 0);
  }

  lemma BackIsAnnounced(run: Run, fates: Fates, was: Spent, k: nat, cause: RollbackCause, now: Spent, r: Result<(), JournalStorageErrorKind>, aim: ExecutionOutcome)
    requires 0 < k <= run.Steps() <= USIZE_MAX && Backs(run, fates, was, k, cause, aim)
    requires IsEntered(fates, was, now, RollbackStepPrepared(k - 1), true, r)
    ensures r.Failure? ==> aim == NeedsRecovery(Backwards, Some(k - 1), JournalFailed(r.error))
    ensures r.Success? && ForwardMove(run.plan, k - 1).None? ==> aim == NeedsRecovery(Backwards, Some(k - 1), InvalidFrozenPlan)
    ensures r.Success? && ForwardMove(run.plan, k - 1).Some? ==> MovesBack(run, fates, now, k, cause, aim)
  {
    assert Unsealed(AimSeal, 0);
  }

  lemma BackIsTried(run: Run, fates: Fates, was: Spent, k: nat, cause: RollbackCause, renamed: Result<ExecutionIdentity, ExecutionFsErrorKind>, aim: ExecutionOutcome)
    requires 0 < k <= run.Steps() && MovesBack(run, fates, was, k, cause, aim) && ForwardMove(run.plan, k - 1).Some?
    requires renamed == Attempt(run.TreeAfter(k), run.parents, ForwardMove(run.plan, k - 1).value.Reverse(), fates.renames(was.renames))
    ensures HasMovedBack(run, fates, was.(renames := was.renames + 1), k, cause, renamed, aim)
  {
    assert Unsealed(AimSeal, 0);
  }

  lemma BackSucceeds(run: Run, fates: Fates, was: Spent, k: nat, cause: RollbackCause, identity: ExecutionIdentity, now: Spent, r: Result<(), JournalStorageErrorKind>, aim: ExecutionOutcome)
    requires 0 < k <= USIZE_MAX && HasMovedBack(run, fates, was, k, cause, Success(identity), aim)
    requires IsEntered(fates, was, now, RollbackStepCompleted(k - 1, identity), false, r)
    ensures match r case Success(_) => Backs(run, fates, now, k - 1, cause, aim)
            case Failure(kind) => aim == NeedsRecovery(Backwards, Some(k - 1), JournalFailed(kind))
  {
    assert Unsealed(AimSeal, 0);
  }

  lemma BackFails(run: Run, fates: Fates, was: Spent, k: nat, cause: RollbackCause, refused: ExecutionFsErrorKind, now: Spent, r: Result<(), JournalStorageErrorKind>, aim: ExecutionOutcome)
    requires 0 < k <= USIZE_MAX && HasMovedBack(run, fates, was, k, cause, Failure(refused), aim)
    requires !IsAmbiguous(refused) && IsEntered(fates, was, now, RollbackStepFailed(k - 1), true, r)
    ensures aim == NeedsRecovery(Backwards, Some(k - 1), match r case Success(_) => RollbackFailed(refused) case Failure(kind) => JournalFailed(kind))
  {
    assert Unsealed(AimSeal, 0);
  }

  lemma BackIsInDoubt(run: Run, fates: Fates, was: Spent, k: nat, cause: RollbackCause, refused: ExecutionFsErrorKind, aim: ExecutionOutcome)
    requires 0 < k && HasMovedBack(run, fates, was, k, cause, Failure(refused), aim) && IsAmbiguous(refused)
    ensures aim == NeedsRecovery(Backwards, Some(k - 1), AmbiguousFilesystem(refused))
  {
    assert Unsealed(AimSeal, 0);
  }

  lemma UndoIsAnnounced(run: Run, fates: Fates, was: Spent, k: nat, cause: RollbackCause, now: Spent, r: Result<(), JournalStorageErrorKind>, aim: ExecutionOutcome)
    requires Undoes(run, fates, was, k, cause, aim) && IsEntered(fates, was, now, RollbackStarted(cause), true, r)
    ensures match r case Success(_) => Backs(run, fates, now, k, cause, aim)
            case Failure(kind) => aim == NeedsRecovery(Backwards, None, JournalFailed(kind))
  {
    assert Unsealed(AimSeal, 0);
  }

  lemma GoIsDone(run: Run, fates: Fates, was: Spent, shouldCancel: nat -> bool, now: Spent, r: Result<(), JournalStorageErrorKind>, aim: ExecutionOutcome)
    requires Goes(run, fates, was, run.Steps(), shouldCancel, aim) && IsEntered(fates, was, now, TransactionCompleted, true, r)
    ensures aim == match r case Success(_) => ExecutionOutcome.Finished case Failure(kind) => NeedsRecovery(Forwards, None, JournalFailed(kind))
  {
    assert Unsealed(AimSeal, 0);
  }

  lemma GoIsAnnounced(run: Run, fates: Fates, was: Spent, k: nat, end: nat, shouldCancel: nat -> bool, now: Spent, r: Result<(), JournalStorageErrorKind>, aim: ExecutionOutcome)
    requires k < run.Steps() <= USIZE_MAX && end == BatchEnd(fates.version, k, run.Steps()) && Goes(run, fates, was, k, shouldCancel, aim)
    requires IsEntered(fates, was, now, if end == k + 1 then ForwardStepPrepared(k) else ForwardBatchPrepared(k, end - k), true, r)
    ensures match r case Success(_) => TakesOn(run, fates, now, k, end, shouldCancel, aim)
            case Failure(kind) => aim == NeedsRecovery(Forwards, Some(k), JournalFailed(kind))
  {
    assert Unsealed(AimSeal, 0);
  }

  lemma TakeIsCancelled(run: Run, fates: Fates, was: Spent, k: nat, end: nat, shouldCancel: nat -> bool, aim: ExecutionOutcome)
    requires k < end && shouldCancel(k) && TakesOn(run, fates, was, k, end, shouldCancel, aim)
    ensures Undoes(run, fates, was, k, Cancelled, aim)
  {
    assert Unsealed(AimSeal, 0);
  }

  lemma TakeIsInvalid(run: Run, fates: Fates, was: Spent, k: nat, end: nat, shouldCancel: nat -> bool, aim: ExecutionOutcome)
    requires k < end <= run.Steps() && !shouldCancel(k) && TakesOn(run, fates, was, k, end, shouldCancel, aim) && ForwardMove(run.plan, k).None?
    ensures aim == NeedsRecovery(Forwards, Some(k), InvalidFrozenPlan)
  {
    assert Unsealed(AimSeal, 0);
  }

  lemma TakeIsTried(run: Run, fates: Fates, was: Spent, k: nat, end: nat, shouldCancel: nat -> bool, renamed: Result<ExecutionIdentity, ExecutionFsErrorKind>, aim: ExecutionOutcome)
    requires k < end <= run.Steps() && !shouldCancel(k) && TakesOn(run, fates, was, k, end, shouldCancel, aim) && ForwardMove(run.plan, k).Some?
    requires renamed == Attempt(run.TreeAfter(k), run.parents, ForwardMove(run.plan, k).value, fates.renames(was.renames))
    ensures HasMovedOn(run, fates, was.(renames := was.renames + 1), k, end, shouldCancel, renamed, aim)
  {
    assert Unsealed(AimSeal, 0);
  }

  lemma TakeIsOver(run: Run, fates: Fates, was: Spent, end: nat, shouldCancel: nat -> bool, aim: ExecutionOutcome)
    requires TakesOn(run, fates, was, end, end, shouldCancel, aim)
    ensures Goes(run, fates, was, end, shouldCancel, aim)
  {
    assert Unsealed(AimSeal, 0);
  }

  lemma TakeSucceeds(run: Run, fates: Fates, was: Spent, k: nat, end: nat, shouldCancel: nat -> bool, identity: ExecutionIdentity, now: Spent, r: Result<(), JournalStorageErrorKind>, aim: ExecutionOutcome)
    requires k <= USIZE_MAX && HasMovedOn(run, fates, was, k, end, shouldCancel, Success(identity), aim)
    requires IsEntered(fates, was, now, ForwardStepCompleted(k, identity), false, r)
    ensures match r case Success(_) => TakesOn(run, fates, now, k + 1, end, shouldCancel, aim)
            case Failure(kind) => aim == NeedsRecovery(Forwards, Some(k), JournalFailed(kind))
  {
    assert Unsealed(AimSeal, 0);
  }

  lemma TakeFails(run: Run, fates: Fates, was: Spent, k: nat, end: nat, shouldCancel: nat -> bool, refused: ExecutionFsErrorKind, aim: ExecutionOutcome)
    requires HasMovedOn(run, fates, was, k, end, shouldCancel, Failure(refused), aim)
    ensures if IsAmbiguous(refused) then aim == NeedsRecovery(Forwards, Some(k), AmbiguousFilesystem(refused))
            else k <= USIZE_MAX && Undoes(run, fates, was, k, ForwardStepFailed(k), aim)
  {
    assert Unsealed(AimSeal, 0);
  }

  // ---------------------------------------------------------------- when only renames can fail

  type RenameFaults = nat -> RenameFault

  /** A rollback goes back to the beginning, or stops at the first rename that a fault refuses. */
  ghost function BackAim(faults: RenameFaults, at: nat, k: nat, cause: RollbackCause): ExecutionOutcome
    decreases k
  {
    if k == 0 then TakenBack(cause)
    else match faults(at)
      case NoFault => BackAim(faults, at + 1, k - 1, cause)
      case Fault(kind, _) =>
        NeedsRecovery(Backwards, Some(k - 1), if IsAmbiguous(kind) then AmbiguousFilesystem(kind) else RollbackFailed(kind))
  }

  /** A run is taken back before the first step that is cancelled or refused, whatever refuses it; it stops where
      it is in doubt whether a rename was made, and otherwise finishes. */
  ghost function Aim(run: Run, faults: RenameFaults, at: nat, k: nat, shouldCancel: nat -> bool): ExecutionOutcome
    requires run.Steps() <= USIZE_MAX && run.plan.Complete()
    decreases run.Steps() - k
  {
    if k >= run.Steps() then ExecutionOutcome.Finished
    else if shouldCancel(k) then BackAim(faults, at, k, Cancelled)
    else match Attempt(run.TreeAfter(k), run.parents, ForwardMove(run.plan, k).value, faults(at))
      case Success(_) => Aim(run, faults, at + 1, k + 1, shouldCancel)
      case Failure(kind) =>
        if IsAmbiguous(kind) then NeedsRecovery(Forwards, Some(k), AmbiguousFilesystem(kind))
        else BackAim(faults, at + 1, k, ForwardStepFailed(k))
  }

  /** Every record of a step can be encoded; batches need the current version. */
  ghost predicate WritesSteps(write: FrameWriter, version: u16) {
    forall x {:trigger Unsealed(WritesSeal, x)} :: Unsealed(WritesSeal, x) ==>
      forall sequence: nat, record: JournalRecord {:trigger write(sequence, record)} ::
        sequence < U64_MAX && !record.TransactionStarted? && (record.ForwardBatchPrepared? ==> version >= JOURNAL_SCHEMA_VERSION)
        ==> write(sequence, record).Success?
  }

  /** Nothing keeps the next `room` step records out of the journal. */
  ghost predicate Undisturbed(fates: Fates, spent: Spent, room: nat) {
    && (forall i :: fates.writes(i).Whole? && fates.syncs(i).None?)
    && spent.sequence + room <= U64_MAX && WritesSteps(fates.write, fates.version)
  }

  lemma RecordsEnter(fates: Fates, spent: Spent, room: nat, record: JournalRecord, synchronize: bool)
    requires Undisturbed(fates, spent, room) && room > 0 && !record.TransactionStarted?
    requires record.ForwardBatchPrepared? ==> fates.version >= JOURNAL_SCHEMA_VERSION
    ensures var r := Entered(fates, spent, record, synchronize);
            r.Success? && r.value.renames == spent.renames && Undisturbed(fates, r.value, room - 1)
  {
    assert Unsealed(WritesSeal, 0);
  }

  lemma {:induction false} TakingBackIsAimed(run: Run, fates: Fates, spent: Spent, k: nat, cause: RollbackCause)
    requires k <= run.Steps() <= USIZE_MAX && run.plan.Complete() && run.Possible(k) && Undisturbed(fates, spent, 2 * k + 1)
    ensures TakingBack(run, fates, spent, k, cause) == BackAim(fates.renames, spent.renames, k, cause)
    decreases k, 1
  {
    if k == 0 {
      RecordsEnter(fates, spent, 1, TransactionRolledBack, true);
    } else {
      RecordsEnter(fates, spent, 2 * k + 1, RollbackStepPrepared(k - 1), true);
      var prepared := Entered(fates, spent, RollbackStepPrepared(k - 1), true).value;
      var renamed := Attempt(run.TreeAfter(k), run.parents, ForwardMove(run.plan, k - 1).value.Reverse(), fates.renames(spent.renames));
      OnlyFaultsHinder(run, k, fates.renames(spent.renames));
      MovedBackIsAimed(run, fates, prepared.(renames := prepared.renames + 1), k, cause, renamed);
    }
  }

  /** On the way back nothing in the tree stands in the way. */
  lemma OnlyFaultsHinder(run: Run, k: nat, fault: RenameFault)
    requires 0 < k <= run.Steps() && run.Possible(k)
    ensures ForwardMove(run.plan, k - 1).Some?
    ensures var move := ForwardMove(run.plan, k - 1).value;
            Attempt(run.TreeAfter(k), run.parents, move.Reverse(), fault)
            == match fault case NoFault => Success(move.identity) case Fault(kind, _) => Failure(kind)
  {
    assert run.StepPossible(k - 1);
    ReverseUndoes(run.TreeAfter(k - 1), run.parents, ForwardMove(run.plan, k - 1).value);
  }

  lemma {:induction false} MovedBackIsAimed(run: Run, fates: Fates, spent: Spent, k: nat, cause: RollbackCause,
                                            renamed: Result<ExecutionIdentity, ExecutionFsErrorKind>)
    requires 0 < k <= run.Steps() <= USIZE_MAX && run.plan.Complete() && run.Possible(k) && Undisturbed(fates, spent, 2 * k)
    ensures MovedBack(run, fates, spent, k, cause, renamed)
            == match renamed
               case Success(_) => BackAim(fates.renames, spent.renames, k - 1, cause)
               case Failure(kind) =>
                 NeedsRecovery(Backwards, Some(k - 1), if IsAmbiguous(kind) then AmbiguousFilesystem(kind) else RollbackFailed(kind))
    decreases k, 0
  {
    match renamed
    case Success(identity) =>
      RecordsEnter(fates, spent, 2 * k, RollbackStepCompleted(k - 1, identity), false);
      TakingBackIsAimed(run, fates, Entered(fates, spent, RollbackStepCompleted(k - 1, identity), false).value, k - 1, cause);
    case Failure(_) =>
      RecordsEnter(fates, spent, 2 * k, RollbackStepFailed(k - 1), true);
  }

  lemma UndoingIsAimed(run: Run, fates: Fates, spent: Spent, k: nat, cause: RollbackCause)
    requires k <= run.Steps() <= USIZE_MAX && run.plan.Complete() && run.Possible(k) && Undisturbed(fates, spent, 2 * k + 2)
    ensures Undoing(run, fates, spent, k, cause) == BackAim(fates.renames, spent.renames, k, cause)
  {
    RecordsEnter(fates, spent, 2 * k + 2, RollbackStarted(cause), true);
    TakingBackIsAimed(run, fates, Entered(fates, spent, RollbackStarted(cause), true).value, k, cause);
  }

  lemma RestartingIsAimed(run: Run, fates: Fates, spent: Spent, k: nat, cause: RollbackCause)
    requires 0 < k <= run.Steps() <= USIZE_MAX && run.plan.Complete() && run.Possible(k) && Undisturbed(fates, spent, 2 * k + 2)
    ensures Restarting(run, fates, spent, k, cause) == BackAim(fates.renames, spent.renames, k, cause)
  {
    RecordsEnter(fates, spent, 2 * k + 2, RollbackRecoveryStarted(k - 1), true);
    TakingBackIsAimed(run, fates, Entered(fates, spent, RollbackRecoveryStarted(k - 1), true).value, k, cause);
  }

  /** Records that going on from step `k` and then all of a rollback can take. */
  function RoomFrom(steps: nat, k: nat): nat
    requires k <= steps
  {
    2 * (steps - k) + 2 * steps + 3
  }

  /** Without trouble for the journal file the batches make no difference: a run comes to its aim. */
  lemma {:induction false} GoingIsAimed(run: Run, fates: Fates, spent: Spent, k: nat, shouldCancel: nat -> bool)
    requires k <= run.Steps() <= USIZE_MAX && run.plan.Complete() && run.Possible(k)
    requires Undisturbed(fates, spent, RoomFrom(run.Steps(), k))
    ensures Going(run, fates, spent, k, shouldCancel) == Aim(run, fates.renames, spent.renames, k, shouldCancel)
    decreases run.Steps() - k, 1, 0
  {
    if k == run.Steps() {
      RecordsEnter(fates, spent, 3, TransactionCompleted, true);
    } else {
      var end := BatchEnd(fates.version, k, run.Steps());
      var record := if end == k + 1 then ForwardStepPrepared(k) else ForwardBatchPrepared(k, end - k);
      RecordsEnter(fates, spent, RoomFrom(run.Steps(), k), record, true);
      TakingIsAimed(run, fates, Entered(fates, spent, record, true).value, k, end, shouldCancel);
    }
  }

  lemma {:induction false} TakingIsAimed(run: Run, fates: Fates, spent: Spent, k: nat, end: nat, shouldCancel: nat -> bool)
    requires k <= end <= run.Steps() <= USIZE_MAX && run.plan.Complete() && run.Possible(k)
    requires Undisturbed(fates, spent, RoomFrom(run.Steps(), k) - if k < end then 1 else 0)
    ensures Taking(run, fates, spent, k, end, shouldCancel) == Aim(run, fates.renames, spent.renames, k, shouldCancel)
    decreases run.Steps() - k, if k < end then 0 else 2, 1
  {
    if k == end {
      GoingIsAimed(run, fates, spent, k, shouldCancel);
    } else if shouldCancel(k) {
      UndoingIsAimed(run, fates, spent, k, Cancelled);
    } else {
      var renamed := Attempt(run.TreeAfter(k), run.parents, ForwardMove(run.plan, k).value, fates.renames(spent.renames));
      MovedOnIsAimed(run, fates, spent.(renames := spent.renames + 1), k, end, shouldCancel, renamed);
    }
  }

  lemma {:induction false} MovedOnIsAimed(run: Run, fates: Fates, spent: Spent, k: nat, end: nat, shouldCancel: nat -> bool,
                                          renamed: Result<ExecutionIdentity, ExecutionFsErrorKind>)
    requires k < end <= run.Steps() <= USIZE_MAX && run.plan.Complete() && run.Possible(k)
    requires renamed.Success? ==> Enabled(run.TreeAfter(k), run.parents, ForwardMove(run.plan, k).value)
    requires Undisturbed(fates, spent, RoomFrom(run.Steps(), k) - 1)
    ensures MovedOn(run, fates, spent, k, end, shouldCancel, renamed)
            == match renamed
               case Success(_) => Aim(run, fates.renames, spent.renames, k + 1, shouldCancel)
               case Failure(kind) =>
                 if IsAmbiguous(kind) then NeedsRecovery(Forwards, Some(k), AmbiguousFilesystem(kind))
                 else BackAim(fates.renames, spent.renames, k, ForwardStepFailed(k))
    decreases run.Steps() - k, 0, 0
  {
    match renamed
    case Success(identity) =>
      RecordsEnter(fates, spent, RoomFrom(run.Steps(), k) - 1, ForwardStepCompleted(k, identity), false);
      OneMoreIsPossible(run, k);
      TakingIsAimed(run, fates, Entered(fates, spent, ForwardStepCompleted(k, identity), false).value, k + 1, end, shouldCancel);
    case Failure(_) =>
      UndoingIsAimed(run, fates, spent, k, ForwardStepFailed(k));
  }

  lemma OneMoreIsPossible(run: Run, k: nat)
    requires k < run.Steps() && run.Possible(k) && ForwardMove(run.plan, k).Some?
    requires Enabled(run.TreeAfter(k), run.parents, ForwardMove(run.plan, k).value)
    ensures run.Possible(k + 1)
  {
    assert run.StepPossible(k);
  }

  // ---------------------------------------------------------------- what the aim is

  ghost predicate CancelledFrom(run: Run, k: nat, shouldCancel: nat -> bool) {
    exists i :: k <= i < run.Steps() && shouldCancel(i)
  }

  /** The next `count` renames meet no fault. */
  ghost predicate NoneFails(faults: RenameFaults, at: nat, count: nat) {
    forall i :: at <= i < at + count ==> faults(i).NoFault?
  }

  /** A run finishes if and only if nobody cancels, nothing stands in the way and no rename fails. */
  lemma {:induction false} AimIsToFinish(run: Run, faults: RenameFaults, at: nat, k: nat, shouldCancel: nat -> bool)
    requires k <= run.Steps() <= USIZE_MAX && run.plan.Complete() && run.Possible(k)
    ensures Aim(run, faults, at, k, shouldCancel) == ExecutionOutcome.Finished <==>
              run.Possible(run.Steps()) && !CancelledFrom(run, k, shouldCancel) && NoneFails(faults, at, run.Steps() - k)
    decreases run.Steps() - k
  {
    if k < run.Steps() {
      NeverBackToFinish(faults, at, k, Cancelled);
      NeverBackToFinish(faults, at + 1, k, ForwardStepFailed(k));
      FirstOrLater(run, faults, at, k, shouldCancel);
      if Advances(run, faults, at, k, shouldCancel) {
        OneMoreIsPossible(run, k);
        AimIsToFinish(run, faults, at + 1, k + 1, shouldCancel);
      }
    }
  }

  /** Step `k` is taken. */
  ghost predicate Advances(run: Run, faults: RenameFaults, at: nat, k: nat, shouldCancel: nat -> bool)
    requires k < run.Steps()
  {
    !shouldCancel(k) && run.StepPossible(k) && faults(at).NoFault?
  }

  lemma FirstOrLater(run: Run, faults: RenameFaults, at: nat, k: nat, shouldCancel: nat -> bool)
    requires k < run.Steps()
    ensures run.Possible(run.Steps()) && !CancelledFrom(run, k, shouldCancel) && NoneFails(faults, at, run.Steps() - k) <==>
              && Advances(run, faults, at, k, shouldCancel)
              && run.Possible(run.Steps()) && !CancelledFrom(run, k + 1, shouldCancel) && NoneFails(faults, at + 1, run.Steps() - k - 1)
  {
  }

  lemma NeverBackToFinish(faults: RenameFaults, at: nat, k: nat, cause: RollbackCause)
    ensures BackAim(faults, at, k, cause) != ExecutionOutcome.Finished
  {
    BackAimIs(faults, at, k, cause);
  }

  /** A rollback succeeds if and only if no rename fails; the first that does is reported, with its kind. */
  lemma {:induction false} BackAimIs(faults: RenameFaults, at: nat, k: nat, cause: RollbackCause)
    ensures BackAim(faults, at, k, cause) == TakenBack(cause) <==> NoneFails(faults, at, k)
    ensures forall j :: 0 <= j < k && NoneFails(faults, at, j) && faults(at + j).Fault? ==>
              BackAim(faults, at, k, cause)
              == NeedsRecovery(Backwards, Some(k - 1 - j), var kind := faults(at + j).kind;
                                                           if IsAmbiguous(kind) then AmbiguousFilesystem(kind) else RollbackFailed(kind))
    ensures BackAim(faults, at, k, cause) != ExecutionOutcome.Finished
    decreases k
  {
    if k > 0 && faults(at).NoFault? {
      BackAimIs(faults, at + 1, k - 1, cause);
      forall j | 0 < j < k && NoneFails(faults, at, j) ensures NoneFails(faults, at + 1, j - 1) {
      }
    }
  }

  /** The steps from `k` to `j` go well. */
  ghost predicate GoesWell(run: Run, faults: RenameFaults, at: nat, k: nat, j: nat, shouldCancel: nat -> bool) {
    && k <= j <= run.Steps() && run.Possible(j) && NoneFails(faults, at, j - k)
    && forall i :: k <= i < j ==> !shouldCancel(i)
  }

  lemma {:induction false} AimAfter(run: Run, faults: RenameFaults, at: nat, k: nat, j: nat, shouldCancel: nat -> bool)
    requires run.Steps() <= USIZE_MAX && run.plan.Complete() && GoesWell(run, faults, at, k, j, shouldCancel)
    ensures Aim(run, faults, at, k, shouldCancel) == Aim(run, faults, at + (j - k), j, shouldCancel)
    decreases j - k
  {
    if k < j {
      assert run.StepPossible(k) && faults(at).NoFault?;
      AimAfter(run, faults, at + 1, k + 1, j, shouldCancel);
    }
  }

  /** The first hindrance decides: a cancellation or a refusal, be it for an obstacle or for a fault, has the steps
      before it taken back, and a rename in doubt stops the run. */
  lemma FirstHindranceDecides(run: Run, faults: RenameFaults, at: nat, k: nat, j: nat, shouldCancel: nat -> bool)
    requires run.Steps() <= USIZE_MAX && run.plan.Complete() && GoesWell(run, faults, at, k, j, shouldCancel) && j < run.Steps()
    ensures var aim := Aim(run, faults, at, k, shouldCancel);
            var here := at + (j - k);
            && (shouldCancel(j) && NoneFails(faults, here, j) ==> aim == TakenBack(Cancelled))
            && (!shouldCancel(j) && faults(here).Fault? && !IsAmbiguous(faults(here).kind) && NoneFails(faults, here + 1, j) ==>
                  aim == TakenBack(ForwardStepFailed(j)))
            && (!shouldCancel(j) && !run.StepPossible(j) && NoneFails(faults, here, j + 1) ==> aim == TakenBack(ForwardStepFailed(j)))
            && (!shouldCancel(j) && run.StepPossible(j) && faults(here).Fault? && IsAmbiguous(faults(here).kind) ==>
                  aim == NeedsRecovery(Forwards, Some(j), AmbiguousFilesystem(faults(here).kind)))
  {
    var here := at + (j - k);
    AimAfter(run, faults, at, k, j, shouldCancel);
    BackAimIs(faults, here, j, Cancelled);
    BackAimIs(faults, here + 1, j, ForwardStepFailed(j));
  }
}
