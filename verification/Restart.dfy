/** From a crash to its end: whatever is left of the journal is opened again, what is open in it is settled
    with the disk, and the transaction is finished or taken back. */
module Restart {
  import opened Primitives
  import opened Execution
  import opened Replay
  import opened RecordCodec
  import opened Frames
  import opened Journal
  import opened Machine
  import opened Appender
  import opened Transaction
  import opened Plans
  import opened Lookup
  import opened Course
  import opened Executor
  import opened Crash
  import opened Cycles
  import opened RecoveryState
  import opened Recovery
  import opened Outcomes

  /** `a` steps of the run stand on the disk, and whatever a crash leaves of the journal explains them. */
  ghost predicate Rests(run: Run, crc: Checksum, disk: Machine, a: nat)
    reads disk
  {
    && run.write == Writer(crc, JOURNAL_SCHEMA_VERSION) && disk.parents == run.parents
    && Faithful(run.write, disk.Now()) && Sound(run, disk.Now(), disk.history, a)
  }

  /** What a crash leaves of a moment of a run is sound again. */
  lemma RemainsAreSound(crc: Checksum, run: Run, m: Moment, cut: nat) returns (left: Moment, a: nat)
    requires run.write == Writer(crc, JOURNAL_SCHEMA_VERSION) && SafeMoment(run, m)
    requires m.syncedLength <= cut <= |m.file|
    ensures left.tree == m.tree && left.file == m.file[..cut]
    ensures Faithful(run.write, left) && Sound(run, left, [], a)
  {
    var k, rest := CutsAreFaithful(crc, JOURNAL_SCHEMA_VERSION, m, cut);
    left := Remains(m, cut, k, rest);
    a :| run.Reached(m.tree, a) && Safe(run.Steps(), m.written, m.durable, a);
    forall j | m.durable <= j <= k ensures Survivable(run.Steps(), m.written[..k][..j], a) {
      assert m.written[..k][..j] == m.written[..j];
    }
    assert IsSound(run, left, [], a);
  }

  /** A crash at this moment may leave this tree and this journal file: a prefix of the file as it was, with at
      least the synced bytes. */
  ghost predicate MayLeave(run: Run, m: Moment, tree: Tree, file: seq<u8>) {
    forall x {:trigger UnsealedAt(CrashSeal, m, x)} :: UnsealedAt(CrashSeal, m, x) ==>
      SafeMoment(run, m) && tree == m.tree && m.syncedLength <= |file| && file <= m.file
  }

  /** The machine that finds the tree and the journal file as a crash has left them. */
  method Reboot(tree: Tree, file: seq<u8>, parents: Parents, renameFaults: nat -> RenameFault, writeFaults: nat -> WriteFault,
                syncFaults: nat -> Option<nat>, crc: Checksum, ghost run: Run, ghost m: Moment)
    returns (disk: Machine, ghost a: nat)
    requires run.write == Writer(crc, JOURNAL_SCHEMA_VERSION) && parents == run.parents && MayLeave(run, m, tree, file)
    ensures fresh(disk) && disk.tree == tree && disk.file == file && disk.parents == parents
    ensures disk.renameFaults == renameFaults && disk.writeFaults == writeFaults && disk.syncFaults == syncFaults
    ensures Rests(run, crc, disk, a) && disk.renames == 0
  {
    assert UnsealedAt(CrashSeal, m, 0);
    assert file == m.file[..|file|];
    ghost var left;
    left, a := RemainsAreSound(crc, run, m, |file|);
    disk := new Machine.Restart(tree, file, parents, renameFaults, writeFaults, syncFaults, left);
  }

  // ---------------------------------------------------------------- is there anything to recover

  /** Nothing was journaled and nothing done, or the transaction has come to its end. */
  ghost predicate IsOver(run: Run, records: seq<JournalRecord>, tree: Tree) {
    || (records == [] && tree == run.initial)
    || (Replayed(records) == Success(Completed) && run.Reached(tree, run.Steps()))
    || (Replayed(records).Success? && Replayed(records).value.RolledBack? && tree == run.initial)
  }

  /** A journal of the run is either resumed or over. */
  lemma ResumedOrOver(run: Run, crc: Checksum, disk: Machine, a: nat)
    requires Recoverable(run) && Rests(run, crc, disk, a)
    ensures run.Reached(disk.tree, a)
    ensures Resumable(disk.written) <==> !IsOver(run, disk.written, disk.tree)
    ensures disk.written != [] ==> Explained(run.Steps(), disk.written, a) && run.Authored(disk.written)
  {
    assert Unsealed(SoundSeal, 0);
    var records := disk.written;
    assert records[..|records|] == records;
    assert Survivable(run.Steps(), records, a);
    if records != [] {
      assert Unsealed(ExplainedSeal, 0);
      HeaderIsReadable(run);
    }
  }

  /** The journal of a run that was opened again serves it like the first one. */
  lemma OpenedIsConsistent(run: Run, crc: Checksum, journal: DurableAppender, a: nat)
    requires Recoverable(run) && Rests(run, crc, journal.sink, a)
    requires journal.Valid() && journal.write == run.write && journal.Accepted() == journal.sink.written != []
    ensures Consistent(run, journal, a)
  {
    assert Unsealed(PlottedSeal, 0);
    assert run.plan.Indexed();
  }

  lemma ConsistentRests(run: Run, crc: Checksum, journal: DurableAppender, a: nat)
    requires run.write == Writer(crc, JOURNAL_SCHEMA_VERSION) && Consistent(run, journal, a)
    ensures Rests(run, crc, journal.sink, a)
    ensures !journal.poisoned ==> journal.sink.torn == [] && journal.Accepted() == journal.sink.written
  {
    assert Unsealed(ValidSeal, 0);
  }

  // ---------------------------------------------------------------- settling what is open

  datatype Refusal =
    | NotOpened(opening: JournalStorageErrorKind)
    | NotReopened(reopening: JournalStorageErrorKind)
    | NotSettled(settling: RecoveryActionErrorKind)

  /** A step is not settled because the disk shows it in no telling place, because it does not tell about a
      name, or because the journal file fails. */
  ghost predicate WasNotSettled(run: Run, fs: FileSystem, error: RecoveryActionErrorKind) {
    match error
    case InspectionFailed(inspection) => NotTold(run, fs, inspection)
    case DispositionNotDeterministic => true
    case JournalRefused(_) => true
    case _ => false
  }

  lemma RefusalsTell(run: Run, journal: DurableAppender, records: seq<JournalRecord>, fs: FileSystem, a: nat,
                     error: RecoveryActionErrorKind)
    requires Recoverable(run) && Consistent(run, journal, a) && records == journal.Accepted() && NeedsSettling(records)
    requires fs.tree == journal.sink.tree && fs.parents == journal.sink.parents && fs.Honest()
    requires SettlingRefused(records, fs, error)
    ensures WasNotSettled(run, fs, error)
  {
    if error.InspectionFailed? {
      SurvivesWhereConsistent(run, journal, fs, a);
      RunsRefuseToTell(run, records, fs, a, error.inspection);
    }
  }

  /** One settled step makes the file longer by one small frame. */
  lemma SettlingGrowsLittle(crc: Checksum, run: Run, was: Moment, now: Moment, a: nat)
    requires Faithful(Writer(crc, JOURNAL_SCHEMA_VERSION), was) && was.torn == []
    requires Faithful(Writer(crc, JOURNAL_SCHEMA_VERSION), now) && now.torn == []
    requires run.Steps() == 2 * |run.plan.entries| && IsSettled(run, was.written, now.written, a)
    ensures |now.file| <= |was.file| + MAX_STEP_FRAME_BYTES
  {
    var record := now.written[|was.written|];
    assert now.written == was.written + [record];
    OneFrameMore(Writer(crc, JOURNAL_SCHEMA_VERSION), was, now, record);
    StepRecordsFit(crc, JOURNAL_SCHEMA_VERSION, |was.written|, record);
  }

  lemma OneFrameMore(write: FrameWriter, was: Moment, now: Moment, record: JournalRecord)
    requires Faithful(write, was) && was.torn == [] && Faithful(write, now) && now.torn == []
    requires now.written == was.written + [record]
    ensures write(|was.written|, record).Success? && now.file == was.file + write(|was.written|, record).value
  {
    assert HoldsItsRecords(write, was) && HoldsItsRecords(write, now) by { assert Unsealed(FaithfulSeal, 0); }
    assert now.written[|was.written|] == record;
    FileAppend(write, was.written, record);
  }

  /** The journal has just been opened, and it serves the run. */
  ghost predicate Serves(run: Run, crc: Checksum, journal: DurableAppender, records: seq<JournalRecord>, a: nat)
    reads journal, journal.sink
  {
    && run.write == Writer(crc, JOURNAL_SCHEMA_VERSION) && Consistent(run, journal, a)
    && records == journal.Accepted() == journal.sink.written && Resumable(records)
    && !journal.poisoned && !journal.terminal && journal.schemaVersion == JOURNAL_SCHEMA_VERSION
    && |journal.sink.file| <= MAX_JOURNAL_FILE_BYTES
  }

  /** A journal that could be opened has room for all that is left to do. */
  lemma ServingIsRoomy(run: Run, crc: Checksum, journal: DurableAppender, records: seq<JournalRecord>, a: nat)
    requires Recoverable(run) && Serves(run, crc, journal, records, a)
    ensures Roomy(journal, 4 * run.Steps() + 4)
  {
    StepRecordsAreWritten(crc, JOURNAL_SCHEMA_VERSION);
    FramesTakeRoom(crc, run.write, journal.sink.Now());
    assert run.write(0, run.header).Success? by {
      assert HoldsItsRecords(run.write, journal.sink.Now()) by { assert Unsealed(FaithfulSeal, 0); }
      assert Unsealed(SoundSeal, 0);
    }
    HeadersBoundSteps(crc, JOURNAL_SCHEMA_VERSION, run);
  }

  predicate NeedsSettling(records: seq<JournalRecord>) {
    Replayed(records).Success? && Replayed(records).value.ReconciliationRequired?
  }

  /** Opens the journal on a disk that it is not over for. */
  method OpenServing(crc: Checksum, disk: Machine, ghost run: Run, ghost a: nat)
    returns (r: Result<DurableAppender, JournalStorageErrorKind>, records: seq<JournalRecord>)
    requires Recoverable(run) && Rests(run, crc, disk, a)
    ensures r.Success? <==> |disk.file| <= MAX_JOURNAL_FILE_BYTES && disk.torn == [] && Resumable(disk.written)
    ensures r.Success? ==> fresh(r.value) && r.value.sink == disk && records == disk.written && Serves(run, crc, r.value, records, a)
    ensures r.Failure? ==> OpeningRefused(disk, r.error)
  {
    r, records := OpenJournal(crc, disk);
    if r.Success? {
      OpenedIsConsistent(run, crc, r.value, a);
    }
  }

  /** Settles the first prepared step and opens the journal again for the next. */
  method SettleOnce(crc: Checksum, journal: DurableAppender, records: seq<JournalRecord>,
                    trouble: Location -> Option<ExecutionFsErrorKind>, ghost run: Run, ghost a: nat)
    returns (r: Result<DurableAppender, Refusal>, longer: seq<JournalRecord>)
    requires Recoverable(run) && Serves(run, crc, journal, records, a) && NeedsSettling(records)
    requires FileSystem(journal.sink.tree, journal.sink.parents, trouble).Honest()
    modifies journal, journal.sink
    ensures Rests(run, crc, journal.sink, a) && journal.sink.tree == old(journal.sink.tree)
    ensures r.Success? ==> fresh(r.value) && r.value.sink == journal.sink && Serves(run, crc, r.value, longer, a)
    ensures r.Success? ==> IsSettled(run, records, longer, a)
    ensures r.Failure? ==> !r.error.NotOpened?
    ensures r.Failure? && r.error.NotReopened? ==>
              |journal.sink.file| > MAX_JOURNAL_FILE_BYTES && r.error.reopening.ResumeTooLarge?
    ensures r.Failure? && r.error.NotSettled? ==>
              WasNotSettled(run, FileSystem(journal.sink.tree, journal.sink.parents, trouble), r.error.settling)
    ensures r.Success? || r.error.NotReopened? ==> !Untellable(run, records, journal.sink.tree)
    ensures r.Success? || r.error.NotReopened? ==> |journal.sink.file| <= |old(journal.sink.file)| + MAX_STEP_FRAME_BYTES
    ensures r == Failure(NotSettled(DispositionNotDeterministic)) ==> Untellable(run, records, journal.sink.tree)
    ensures journal.sink.renames == old(journal.sink.renames)
    ensures (forall at :: trouble(at).None?) && journal.sink.Writable() ==>
              r.Success? || r.error.NotReopened? || r == Failure(NotSettled(DispositionNotDeterministic))
  {
    ServingIsRoomy(run, crc, journal, records, a);
    ConsistentRests(run, crc, journal, a);
    ghost var was := journal.sink.Now();
    var settled := ReconcilePreparedStep(journal, records, trouble, run, a);
    ConsistentRests(run, crc, journal, a);
    if settled.Failure? {
      ghost var fs := FileSystem(journal.sink.tree, journal.sink.parents, trouble);
      RefusalsTell(run, journal, records, fs, a, settled.error);
      return Failure(NotSettled(settled.error)), records;
    }
    SettlingGrowsLittle(crc, run, was, journal.sink.Now(), a);
    SettledIsResumable(run, records, journal.sink.written, a);
    var again;
    again, longer := OpenServing(crc, journal.sink, run, a);
    r := if again.Success? then Success(again.value) else Failure(NotReopened(again.error));
  }

  lemma SettledIsResumable(run: Run, records: seq<JournalRecord>, longer: seq<JournalRecord>, a: nat)
    requires run.Steps() == 2 * |run.plan.entries| && Resumable(records) && IsSettled(run, records, longer, a)
    ensures Resumable(longer)
  {
  }

  /** Where the journal of a run stands between two settled steps, seen from where it stood first. */
  ghost predicate OnCourse(run: Run, first: seq<JournalRecord>, records: seq<JournalRecord>, a: nat) {
    && ReplayAll(first).Success? && ReplayAll(records).Success?
    && SameCourse(ReplayAll(first).value, ReplayAll(records).value)
    && Unsettled(ReplayAll(records).value) <= Unsettled(ReplayAll(first).value)
    && (records == first || !Overshot(run, ReplayAll(first).value, a))
  }

  lemma StaysOnCourse(run: Run, first: seq<JournalRecord>, records: seq<JournalRecord>, longer: seq<JournalRecord>, a: nat)
    requires run.Steps() == 2 * |run.plan.entries|
    requires OnCourse(run, first, records, a) && IsSettled(run, records, longer, a)
    requires !Overshot(run, ReplayAll(records).value, a)
    ensures OnCourse(run, first, longer, a)
  {
  }

  /** What cannot be told later could not be told at first, if nothing is seen twice. */
  lemma OvershootingWasThere(run: Run, first: seq<JournalRecord>, records: seq<JournalRecord>, tree: Tree, a: nat)
    requires Recoverable(run) && Laid(run, tree, a) && Injective(tree) && OnCourse(run, first, records, a)
    ensures Overshot(run, ReplayAll(records).value, a) ==> Overshot(run, ReplayAll(first).value, a) || SeenTwice(run, tree)
  {
    var mode := ReplayAll(first).value;
    if mode.Forward? && mode.nextStep < |run.plan.entries| {
      DoublingShows(run, tree, a, mode.nextStep);
    }
  }

  lemma ServingShows(run: Run, crc: Checksum, journal: DurableAppender, records: seq<JournalRecord>, fs: FileSystem, a: nat)
    requires Recoverable(run) && Serves(run, crc, journal, records, a)
    requires fs.tree == journal.sink.tree && fs.parents == journal.sink.parents && fs.Honest()
    ensures ReplayAll(records).Success?
    ensures GoneAhead(run, records, fs.tree) <==> Overshot(run, ReplayAll(records).value, a)
    ensures Unsettled(ReplayAll(records).value) <= FORWARD_JOURNAL_BATCH_STEPS
    ensures Laid(run, fs.tree, a) && Injective(fs.tree)
  {
    SurvivesWhereConsistent(run, journal, fs, a);
    OvershootingShows(run, records, fs, a);
    WindowsAreNarrow(records);
  }

  /** With at least as many sources as a batch has steps, the disk always tells. */
  lemma LargePlansAreTold(run: Run, crc: Checksum, disk: Machine, fs: FileSystem, a: nat)
    requires Recoverable(run) && Rests(run, crc, disk, a)
    requires fs.tree == disk.tree && fs.parents == disk.parents && fs.Honest()
    ensures GoneAhead(run, disk.written, disk.tree) ==> |run.plan.entries| < FORWARD_JOURNAL_BATCH_STEPS
  {
    ResumedOrOver(run, crc, disk, a);
    ReachedIsLaid(run, a);
    RunsConserve(run, a);
    if disk.written != [] {
      OvershootingShows(run, disk.written, fs, a);
      OnlySmallPlansOvershoot(run, disk.written, a);
    }
  }

  /** What each refusal to settle a journal means. */
  ghost predicate RefusalMeans(run: Run, disk: Machine, fs: FileSystem, refusal: Refusal)
    reads disk
  {
    match refusal
    case NotOpened(opening) => OpeningRefused(disk, opening)
    case NotReopened(reopening) => reopening.ResumeTooLarge? && |disk.file| > MAX_JOURNAL_FILE_BYTES
    case NotSettled(settling) => WasNotSettled(run, fs, settling)
  }

  const MAX_SETTLING_BYTES: nat := FORWARD_JOURNAL_BATCH_STEPS * MAX_STEP_FRAME_BYTES

  /** Opens what is left of the journal and settles one prepared step after another, opening it anew each
      time. */
  method SettleAll(crc: Checksum, disk: Machine, trouble: Location -> Option<ExecutionFsErrorKind>, ghost run: Run, ghost a: nat)
    returns (r: Result<DurableAppender, Refusal>, records: seq<JournalRecord>)
    requires Recoverable(run) && Rests(run, crc, disk, a) && FileSystem(disk.tree, disk.parents, trouble).Honest()
    modifies disk
    ensures Rests(run, crc, disk, a) && disk.tree == old(disk.tree)
    ensures r.Failure? && r.error.NotOpened? <==>
              |old(disk.file)| > MAX_JOURNAL_FILE_BYTES || old(disk.torn) != [] || !Resumable(old(disk.written))
    ensures r.Failure? && r.error.NotReopened? ==>
              |old(disk.file)| <= MAX_JOURNAL_FILE_BYTES < |disk.file| <= |old(disk.file)| + MAX_SETTLING_BYTES
    ensures r.Failure? ==> RefusalMeans(run, disk, FileSystem(disk.tree, disk.parents, trouble), r.error)
    ensures r.Failure? && r.error.NotOpened? ==> disk.file == old(disk.file)
    ensures r.Success? ==> fresh(r.value) && r.value.sink == disk && Serves(run, crc, r.value, records, a)
    ensures r.Success? ==> !NeedsSettling(records) && OnCourse(run, old(disk.written), records, a)
    ensures r.Success? || r.error.NotReopened? ==> !GoneAhead(run, old(disk.written), disk.tree)
    ensures r == Failure(NotSettled(DispositionNotDeterministic)) ==>
              GoneAhead(run, old(disk.written), disk.tree) || SeenTwice(run, disk.tree)
    ensures disk.renames == old(disk.renames)
    ensures (forall at :: trouble(at).None?) && disk.Writable() ==>
              r.Success? || !r.error.NotSettled? || r.error.settling.DispositionNotDeterministic?
  {
    ghost var fs := FileSystem(disk.tree, disk.parents, trouble);
    ghost var first, size := disk.written, |disk.file|;
    var opening;
    opening, records := OpenServing(crc, disk, run, a);
    if opening.Failure? {
      return Failure(NotOpened(opening.error)), records;
    }
    var journal := opening.value;
    ServingShows(run, crc, journal, records, fs, a);
    while NeedsSettling(records)
      invariant fresh(journal) && journal.sink == disk && Serves(run, crc, journal, records, a)
      invariant disk.tree == fs.tree && disk.renames == old(disk.renames) && OnCourse(run, first, records, a)
      invariant |disk.file| <= size + MAX_STEP_FRAME_BYTES * (Unsettled(ReplayAll(first).value) - Unsettled(ReplayAll(records).value))
      decreases Unsettled(ReplayAll(records).value)
    {
      ServingShows(run, crc, journal, records, fs, a);
      OvershootingWasThere(run, first, records, disk.tree, a);
      ConsistentRests(run, crc, journal, a);
      ghost var before := records;
      var next;
      next, records := SettleOnce(crc, journal, records, trouble, run, a);
      if next.Failure? {
        return Failure(next.error), records;
      }
      journal := next.value;
      StaysOnCourse(run, first, before, records, a);
    }
    ServingShows(run, crc, journal, records, fs, a);
    ConsistentRests(run, crc, journal, a);
    r := Success(journal);
  }

  // ---------------------------------------------------------------- recovering

  datatype RecoveryResult =
    | Refused(refusal: Refusal)
    | NotRecovered(recovering: RecoveryActionErrorKind)
    | Recovered(outcome: ExecutionOutcome)

  /** Whatever happens on the way, the outcome is one that the journal and the action allow, with its cause in
      what is left of the journal. */
  ghost predicate IsAllowed(run: Run, mode: ReplayMode, a: nat, action: RecoveryAction, shouldCancel: nat -> bool,
                            records: seq<JournalRecord>, outcome: ExecutionOutcome) {
    match mode
    case Forward(_, _, _) =>
      if action.Resume? then
        && (outcome == ExecutionOutcome.Finished ==> !CancelledFrom(run, a, shouldCancel))
        && HasCause(records, outcome, a, run.Steps(), shouldCancel)
      else outcome != ExecutionOutcome.Finished && Blames(records, outcome, RecoveryRequested)
    case Rollback(cause, _, _) => outcome != ExecutionOutcome.Finished && Blames(records, outcome, cause)
    case Stuck(cause, _, _) => outcome != ExecutionOutcome.Finished && Blames(records, outcome, cause)
    case _ => false
  }

  /** What recovery comes to when only renames can fail: a resumed run goes on from the step that it had really
      reached, anything else is taken back for the cause on record or the one that was asked for. */
  ghost predicate IsDestined(run: Run, faults: RenameFaults, mode: ReplayMode, a: nat, action: RecoveryAction,
                             shouldCancel: nat -> bool, outcome: ExecutionOutcome) {
    match mode
    case Forward(_, _, _) =>
      if action.Resume? then
        && a <= run.Steps() <= USIZE_MAX && run.plan.Complete() && outcome == Aim(run, faults, 0, a, shouldCancel)
        && (outcome == ExecutionOutcome.Finished <==>
              Unobstructed(run.plan.entries) && !CancelledFrom(run, a, shouldCancel) && NoneFails(faults, 0, run.Steps() - a))
      else outcome == BackAim(faults, 0, a, RecoveryRequested)
    case Rollback(cause, _, _) => outcome == BackAim(faults, 0, a, cause)
    case Stuck(cause, _, _) => outcome == BackAim(faults, 0, a, cause)
    case _ => false
  }

  /** The status of the settled journal stands for the course that the run was on. */
  lemma AnswersAreAllowed(run: Run, first: seq<JournalRecord>, settled: seq<JournalRecord>, a: nat, action: RecoveryAction,
                          shouldCancel: nat -> bool, records: seq<JournalRecord>, outcome: ExecutionOutcome)
    requires Explained(run.Steps(), settled, a) && OnCourse(run, first, settled, a)
    requires Replayed(settled).Success? && IsAnswer(run, Replayed(settled).value, action, shouldCancel, records, outcome)
    ensures IsAllowed(run, ReplayAll(first).value, a, action, shouldCancel, records, outcome)
  {
    SettledModes(run.Steps(), settled, a);
    assert Unsealed(ForwardSeal, 0) && Unsealed(RollbackSeal, 0);
  }

  lemma AnswersCarryOver(run: Run, status: JournalStatus, action: RecoveryAction, shouldCancel: nat -> bool,
                         records: seq<JournalRecord>, left: seq<JournalRecord>, outcome: ExecutionOutcome)
    requires IsAnswer(run, status, action, shouldCancel, records, outcome) && (IsStuck(outcome) ==> records == left)
    ensures IsAnswer(run, status, action, shouldCancel, left, outcome)
  {
    if GoesForward(status) && action.Resume? {
      CausesCarryOver(records, left, outcome, StandingSteps(status, run.Steps()), run.Steps(), shouldCancel);
    }
  }

  lemma AimsAreDestined(run: Run, faults: RenameFaults, first: seq<JournalRecord>, settled: seq<JournalRecord>, a: nat,
                        action: RecoveryAction, shouldCancel: nat -> bool, outcome: ExecutionOutcome)
    requires Plotted(run) && run.plan.Complete() && run.Possible(a) && OnCourse(run, first, settled, a)
    requires Explained(run.Steps(), settled, a) && Replayed(settled).Success?
    requires !Replayed(settled).value.Terminal() && !NeedsSettling(settled)
    requires AimReached(run, faults, 0, Replayed(settled).value, action, shouldCancel, outcome)
    ensures IsDestined(run, faults, ReplayAll(first).value, a, action, shouldCancel, outcome)
  {
    SettledStands(run, settled, a);
    if run.Steps() <= USIZE_MAX {
      ResumingFinishes(run, faults, a, shouldCancel);
    }
  }

  /** What the status of a settled journal says of its mode. */
  lemma SettledStands(run: Run, settled: seq<JournalRecord>, a: nat)
    requires Explained(run.Steps(), settled, a) && Replayed(settled).Success?
    requires !Replayed(settled).value.Terminal() && !NeedsSettling(settled)
    ensures var status := Replayed(settled).value;
            && StandingSteps(status, run.Steps()) == a <= run.Steps()
            && match ReplayAll(settled).value
               case Forward(_, _, _) => GoesForward(status) && CauseOf(status) == RecoveryRequested
               case Rollback(cause, _, _) => !GoesForward(status) && CauseOf(status) == cause
               case Stuck(cause, _, _) => !GoesForward(status) && CauseOf(status) == cause
               case _ => false
  {
    SettledModes(run.Steps(), settled, a);
    assert Unsealed(ForwardSeal, 0) && Unsealed(RollbackSeal, 0);
  }

  lemma ResumingFinishes(run: Run, faults: RenameFaults, a: nat, shouldCancel: nat -> bool)
    requires Plotted(run) && run.plan.Complete() && run.Possible(a) && a <= run.Steps() <= USIZE_MAX
    ensures Aim(run, faults, 0, a, shouldCancel) == ExecutionOutcome.Finished <==>
              Unobstructed(run.plan.entries) && !CancelledFrom(run, a, shouldCancel) && NoneFails(faults, 0, run.Steps() - a)
  {
    CyclesSucceed(run);
    AimIsToFinish(run, faults, 0, a, shouldCancel);
  }

  /** Only renames can hinder a journal that serves. */
  lemma ServingIsAimed(run: Run, crc: Checksum, journal: DurableAppender, records: seq<JournalRecord>, a: nat,
                       action: RecoveryAction, shouldCancel: nat -> bool, outcome: ExecutionOutcome)
    requires Recoverable(run) && Serves(run, crc, journal, records, a) && !NeedsSettling(records) && journal.sink.Writable()
    requires CarriesOn(run, journal.Ahead(), journal.Behind(), Replayed(records).value, action, shouldCancel, outcome)
    ensures AimReached(run, journal.sink.renameFaults, journal.sink.renames, Replayed(records).value, action, shouldCancel, outcome)
  {
    ServingIsRoomy(run, crc, journal, records, a);
    HeadedIsComplete(run);
    StateIsReached(run, journal, a);
    AcceptedIsExplained(run, journal, a);
    SettledModes(run.Steps(), records, a);
    CarryingIsAimed(run, journal.Ahead(), journal.Behind(), Replayed(records).value, action, shouldCancel, outcome);
  }

  /** What every end of a recovery keeps: the run is safe from the next crash, and an outcome means what it
      says and stays. */
  ghost predicate Holds(run: Run, crc: Checksum, disk: Machine, outcome: ExecutionOutcome)
    reads disk
  {
    && SafeMoment(run, disk.Now()) && SafeHistory(run, disk.history)
    && Means(run, outcome, disk.tree) && Endures(crc, outcome, disk.Now())
  }

  lemma ConcludedHolds(run: Run, crc: Checksum, journal: DurableAppender, outcome: ExecutionOutcome)
    requires run.write == Writer(crc, JOURNAL_SCHEMA_VERSION) && Plotted(run)
    requires Concluded(run, journal, outcome) && !IsInvalidPlan(outcome)
    ensures Holds(run, crc, journal.sink, outcome)
    ensures IsStuck(outcome) ==> SurvivingRecords(crc, journal.sink.file) == journal.Accepted()
  {
    OutcomesMean(run, journal, outcome);
    OutcomesEndure(crc, run, journal, outcome);
    assert Unsealed(ConcludedSeal, 0);
    ghost var k :| Consistent(run, journal, k);
    ConsistentRests(run, crc, journal, k);
    RestingIsSafe(run, crc, journal.sink, k);
  }

  lemma RestingIsSafe(run: Run, crc: Checksum, disk: Machine, a: nat)
    requires Rests(run, crc, disk, a)
    ensures SafeMoment(run, disk.Now()) && SafeHistory(run, disk.history) && run.Reached(disk.tree, a)
  {
    assert Unsealed(SoundSeal, 0);
  }

  lemma RefusedIsNotConcluded(run: Run, crc: Checksum, journal: DurableAppender, records: seq<JournalRecord>, fs: FileSystem,
                              a: nat, error: RecoveryActionErrorKind)
    requires Recoverable(run) && Consistent(run, journal, a) && records == journal.Accepted()
    requires Resumable(records) && !NeedsSettling(records) && RecoveryRefused(run, records, fs, error)
    requires fs.tree == journal.sink.tree && fs.parents == journal.sink.parents && fs.Honest()
    ensures WasNotConcluded(run, fs, error)
  {
    SurvivesWhereConsistent(run, journal, fs, a);
    if error.IdentityStateChanged? {
      var i :| 0 <= i < |run.plan.entries| && IsElsewhere(run.plan, records, fs, i);
      ElsewhereIsSeenTwice(run, records, fs, a, i);
    }
  }

  /** A settled journal is refused because a source is seen twice or the disk does not tell where one is. */
  ghost predicate WasNotConcluded(run: Run, fs: FileSystem, error: RecoveryActionErrorKind) {
    match error
    case IdentityStateChanged => SeenTwice(run, fs.tree)
    case InspectionFailed(inspection) => NotTold(run, fs, inspection)
    case _ => false
  }

  /** Finishes the transaction of a settled journal, or takes it back. */
  method ConcludeSettled(crc: Checksum, journal: DurableAppender, records: seq<JournalRecord>,
                         trouble: Location -> Option<ExecutionFsErrorKind>, action: RecoveryAction, shouldCancel: nat -> bool,
                         ghost run: Run, ghost a: nat, ghost first: seq<JournalRecord>)
    returns (r: Acting<ExecutionOutcome>)
    requires Recoverable(run) && Serves(run, crc, journal, records, a) && !NeedsSettling(records) && OnCourse(run, first, records, a)
    requires FileSystem(journal.sink.tree, journal.sink.parents, trouble).Honest()
    modifies journal, journal.sink
    ensures r.Failure? ==> Rests(run, crc, journal.sink, a) && journal.sink.tree == old(journal.sink.tree)
    ensures r.Success? ==> Holds(run, crc, journal.sink, r.value)
    ensures r.Success? ==>
              IsAllowed(run, ReplayAll(first).value, a, action, shouldCancel, SurvivingRecords(crc, journal.sink.file), r.value)
    ensures SeenTwice(run, old(journal.sink.tree)) ==> r.Failure?
    ensures (forall at :: trouble(at).None?) ==>
              if SeenTwice(run, old(journal.sink.tree)) then r == Failure(IdentityStateChanged) else r.Success?
    ensures r.Failure? ==> WasNotConcluded(run, FileSystem(journal.sink.tree, journal.sink.parents, trouble), r.error)
    ensures r.Success? && journal.sink.Writable() && old(journal.sink.renames) == 0 ==>
              IsDestined(run, journal.sink.renameFaults, ReplayAll(first).value, a, action, shouldCancel, r.value)
  {
    ghost var fates, spent, status := journal.Ahead(), journal.Behind(), Replayed(records).value;
    HeadedIsComplete(run);
    StateIsReached(run, journal, a);
    AcceptedIsExplained(run, journal, a);
    assert run.Authored(records) by { assert Unsealed(SoundSeal, 0); }
    forall outcome | journal.sink.Writable() && CarriesOn(run, fates, spent, status, action, shouldCancel, outcome)
      ensures AimReached(run, fates.renames, spent.renames, status, action, shouldCancel, outcome)
    {
      ServingIsAimed(run, crc, journal, records, a, action, shouldCancel, outcome);
    }
    r := RecoverTransaction(journal, records, trouble, action, shouldCancel, run, a);
    if r.Failure? {
      StateIsReached(run, journal, a);
      ConsistentRests(run, crc, journal, a);
      RefusedIsNotConcluded(run, crc, journal, records, FileSystem(journal.sink.tree, journal.sink.parents, trouble), a, r.error);
    } else {
      ConcludedHolds(run, crc, journal, r.value);
      AnswersCarryOver(run, status, action, shouldCancel, journal.Accepted(), SurvivingRecords(crc, journal.sink.file), r.value);
      AnswersAreAllowed(run, first, records, a, action, shouldCancel, SurvivingRecords(crc, journal.sink.file), r.value);
      if journal.sink.Writable() && spent.renames == 0 {
        AimsAreDestined(run, fates.renames, first, records, a, action, shouldCancel, r.value);
      }
    }
  }

  /** After a crash at any moment of a run, whatever it leaves of the journal: a recovery that is refused
      leaves the tree alone, and one that is not ends as a run may end. Without faults it is refused exactly
      for a journal that is too large or torn, for a transaction that is over, for a source that has gone ahead
      of a lost completion, and for one that is seen twice. */
  method RecoverAfterCrash(tree: Tree, file: seq<u8>, parents: Parents, renameFaults: nat -> RenameFault,
                           writeFaults: nat -> WriteFault, syncFaults: nat -> Option<nat>,
                           trouble: Location -> Option<ExecutionFsErrorKind>, crc: Checksum, action: RecoveryAction,
                           shouldCancel: nat -> bool, ghost run: Run, ghost m: Moment)
    returns (disk: Machine, r: RecoveryResult, ghost a: nat)
    requires Recoverable(run) && run.write == Writer(crc, JOURNAL_SCHEMA_VERSION) && parents == run.parents
    requires MayLeave(run, m, tree, file)
    requires FileSystem(tree, parents, trouble).Honest()
    ensures Measured(Reader(crc)) && run.Reached(tree, a)
    ensures disk.renameFaults == renameFaults && disk.writeFaults == writeFaults && disk.syncFaults == syncFaults
    ensures SafeMoment(run, disk.Now()) && SafeHistory(run, disk.history) && (!r.Recovered? ==> disk.tree == tree)
    ensures var records, torn := SurvivingRecords(crc, file), Inspected(Reader(crc), file).issue.Some?;
            && (r.Refused? && r.refusal.NotOpened? <==> |file| > MAX_JOURNAL_FILE_BYTES || torn || IsOver(run, records, tree))
            && (r.Refused? && r.refusal.NotReopened? ==>
                  |file| + MAX_SETTLING_BYTES > MAX_JOURNAL_FILE_BYTES && !GoneAhead(run, records, tree))
            && (r == Refused(NotSettled(DispositionNotDeterministic)) ==> GoneAhead(run, records, tree) || SeenTwice(run, tree))
            && (r.Refused? ==> RefusalMeans(run, disk, FileSystem(tree, parents, trouble), r.refusal))
            && (r.Refused? && r.refusal.NotOpened? ==> disk.file == file)
            && (r.NotRecovered? ==> WasNotConcluded(run, FileSystem(tree, parents, trouble), r.recovering))
            && (SeenTwice(run, tree) ==> !r.Recovered?)
            && (GoneAhead(run, records, tree) ==> r.Refused? && |run.plan.entries| < FORWARD_JOURNAL_BATCH_STEPS)
            && (FileSystem(tree, parents, trouble).Untroubled() && disk.Writable() ==>
                  && (r.NotRecovered? ==> r.recovering.IdentityStateChanged? && SeenTwice(run, tree))
                  && (r.Refused? && r.refusal.NotSettled? ==> r.refusal.settling.DispositionNotDeterministic?))
            && (r.Recovered? ==>
                  && Holds(run, crc, disk, r.outcome) && ReplayAll(records).Success?
                  && IsAllowed(run, ReplayAll(records).value, a, action, shouldCancel, SurvivingRecords(crc, disk.file), r.outcome)
                  && (disk.Writable() ==> IsDestined(run, renameFaults, ReplayAll(records).value, a, action, shouldCancel, r.outcome)))
  {
    ReaderIsSound(crc);
    disk, a := Reboot(tree, file, parents, renameFaults, writeFaults, syncFaults, crc, run, m);
    FaithfulInspects(crc, JOURNAL_SCHEMA_VERSION, disk.Now());
    ResumedOrOver(run, crc, disk, a);
    LargePlansAreTold(run, crc, disk, FileSystem(tree, parents, trouble), a);
    ghost var first := disk.written;
    var settled, records := SettleAll(crc, disk, trouble, run, a);
    if settled.Failure? {
      RestingIsSafe(run, crc, disk, a);
      return disk, Refused(settled.error), a;
    }
    var concluded := ConcludeSettled(crc, settled.value, records, trouble, action, shouldCancel, run, a, first);
    if concluded.Failure? {
      RestingIsSafe(run, crc, disk, a);
      return disk, NotRecovered(concluded.error), a;
    }
    return disk, Recovered(concluded.value), a;
  }
}
