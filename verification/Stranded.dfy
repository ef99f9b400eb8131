/** Moments that recovery does not get out of: a small plan whose buffered completions are lost, and a source
    that waits under a temporary name which is its final name too. */
module Stranded {
  import opened Primitives
  import opened LittleEndian
  import opened Execution
  import opened Replay
  import opened RecordCodec
  import opened Frames
  import opened Journal
  import opened Machine
  import opened Appender
  import opened Transaction
  import opened Plans
  import opened Lookup
  import opened Executor
  import opened Crash
  import opened Cycles
  import opened RecoveryState
  import opened Recovery
  import opened FrozenPlans
  import opened Outcomes
  import opened Collisions

  // ---------------------------------------------------------------- in the middle of a run

  /** The end of the batch that step `k` belongs to. */
  function EndOf(steps: nat, k: nat): (r: nat)
    requires k < steps
    ensures k < r <= steps
  {
    Least(k - k % FORWARD_JOURNAL_BATCH_STEPS + FORWARD_JOURNAL_BATCH_STEPS, steps)
  }

  function StartsBatch(k: nat): bool {
    k % FORWARD_JOURNAL_BATCH_STEPS == 0
  }

  function Announcement(steps: usize, first: nat): JournalRecord
    requires first < steps
  {
    var count := EndOf(steps, first) - first;
    if count == 1 then ForwardStepPrepared(first) else ForwardBatchPrepared(first, count)
  }

  /** The journal of a run without faults when step `k` is about to be taken. */
  ghost function Before(run: Run, k: nat): (r: seq<JournalRecord>)
    requires k < run.Steps() == 2 * |run.plan.entries| <= USIZE_MAX
    ensures 0 < |r| <= 2 * k + 2
  {
    var done := if k == 0 then [run.header] else Before(run, k - 1) + [ForwardStepCompleted(k - 1, MovedIn(run, k - 1))];
    if StartsBatch(k) then done + [Announcement(run.Steps(), k)] else done
  }

  /** How many of its records are synced: all up to the last announcement. */
  ghost function SyncedBefore(run: Run, k: nat): nat
    requires k < run.Steps() == 2 * |run.plan.entries| <= USIZE_MAX
  {
    if StartsBatch(k) then |Before(run, k)| else SyncedBefore(run, k - 1)
  }

  ghost predicate IsUnderway(run: Run, crc: Checksum) {
    && run.write == Writer(crc, JOURNAL_SCHEMA_VERSION) && Plotted(run) && run.Steps() <= USIZE_MAX
    && ValidHeader(run.header) && run.header.stepCount == run.Steps()
    && run.write(0, run.header).Success? && RecordCodec.Constructible(run.header)
  }

  /** What holds of the journal then. */
  ghost predicate StandsBefore(run: Run, crc: Checksum, k: nat, records: seq<JournalRecord>, synced: nat)
    requires k < run.Steps()
  {
    && BatchOpen(run.Steps(), records, synced, k, EndOf(run.Steps(), k)) && ForwardIn(records, k, EndOf(run.Steps(), k))
    && synced <= |records| && run.Authored(records) && CanBeWritten(run.write, records)
  }

  ghost predicate CanBeWritten(write: FrameWriter, records: seq<JournalRecord>) {
    FramesEncode(write, records) && forall i :: 0 <= i < |records| ==> RecordCodec.Constructible(records[i])
  }

  lemma OneMoreIsWritten(write: FrameWriter, records: seq<JournalRecord>, record: JournalRecord)
    requires CanBeWritten(write, records) && write(|records|, record).Success? && RecordCodec.Constructible(record)
    ensures CanBeWritten(write, records + [record])
  {
  }

  lemma {:induction false} BeforeStands(run: Run, crc: Checksum, k: nat)
    requires IsUnderway(run, crc) && k < run.Steps()
    ensures StandsBefore(run, crc, k, Before(run, k), SyncedBefore(run, k))
  {
    if k == 0 {
      assert Range(0, 0) == [];
      assert Unsealed(ExplainedSeal, 0) && Unsealed(ForwardSeal, 0);
      Announces(run, crc, [run.header], 0);
    } else {
      BeforeStands(run, crc, k - 1);
      OneStepOn(run, crc, k, Before(run, k - 1), SyncedBefore(run, k - 1));
    }
  }

  lemma BatchesMoveOn(steps: nat, k: nat)
    requires 0 < k < steps
    ensures EndOf(steps, k - 1) == if StartsBatch(k) then k else EndOf(steps, k)
  {
  }

  lemma OneCompletionMore(run: Run, crc: Checksum, k: nat, records: seq<JournalRecord>)
    requires IsUnderway(run, crc) && 0 < k < run.Steps() && 0 < |records| <= 2 * k
    requires run.Authored(records) && CanBeWritten(run.write, records)
    ensures var done := records + [ForwardStepCompleted(k - 1, MovedIn(run, k - 1))];
            run.Authored(done) && CanBeWritten(run.write, done)
  {
    var record := ForwardStepCompleted(k - 1, MovedIn(run, k - 1));
    StepsAreFew(run, crc);
    StepRecordsFit(crc, JOURNAL_SCHEMA_VERSION, |records|, record);
    OneMoreIsWritten(run.write, records, record);
  }

  /** Taking step `k - 1` leads to the middle of its batch or to the announcement of the next. */
  lemma OneStepOn(run: Run, crc: Checksum, k: nat, records: seq<JournalRecord>, synced: nat)
    requires IsUnderway(run, crc) && 0 < k < run.Steps() && 0 < |records| <= 2 * k
    requires StandsBefore(run, crc, k - 1, records, synced)
    ensures var done := records + [ForwardStepCompleted(k - 1, MovedIn(run, k - 1))];
            if StartsBatch(k) then
              var longer := done + [Announcement(run.Steps(), k)];
              StandsBefore(run, crc, k, longer, |longer|)
            else StandsBefore(run, crc, k, done, synced)
  {
    BatchesMoveOn(run.Steps(), k);
    BatchAdvances(run.Steps(), records, synced, k - 1, EndOf(run.Steps(), k - 1), ForwardStepCompleted(k - 1, MovedIn(run, k - 1)));
    OneCompletionMore(run, crc, k, records);
    if StartsBatch(k) {
      StepsAreFew(run, crc);
      Announces(run, crc, records + [ForwardStepCompleted(k - 1, MovedIn(run, k - 1))], k);
    }
  }

  lemma StepsAreFew(run: Run, crc: Checksum)
    requires IsUnderway(run, crc)
    ensures run.Steps() <= 2 * MAX_ADMITTED_SOURCES
  {
  }

  /** Announcing the batch that starts at step `k`. */
  lemma Announces(run: Run, crc: Checksum, records: seq<JournalRecord>, k: nat)
    requires IsUnderway(run, crc) && k < run.Steps() && StartsBatch(k)
    requires Explained(run.Steps(), records, k) && ForwardIn(records, k, k)
    requires run.Authored(records) && records != [] && CanBeWritten(run.write, records) && |records| <= U64_MAX
    ensures var longer := records + [Announcement(run.Steps(), k)]; StandsBefore(run, crc, k, longer, |longer|)
  {
    var record := Announcement(run.Steps(), k);
    BatchOpens(run.Steps(), records, record, k, EndOf(run.Steps(), k) - k);
    StepRecordsFit(crc, JOURNAL_SCHEMA_VERSION, |records|, record);
    OneMoreIsWritten(run.write, records, record);
  }

  /** The moment right after the rename of step `k`, before its completion is written. */
  ghost function MidStep(run: Run, k: nat): Moment
    requires k < run.Steps() == 2 * |run.plan.entries| <= USIZE_MAX && SyncedBefore(run, k) <= |Before(run, k)|
    requires FramesEncode(run.write, Before(run, k)) && FramesEncode(run.write, Before(run, k)[..SyncedBefore(run, k)])
  {
    var records, synced := Before(run, k), SyncedBefore(run, k);
    Moment(run.TreeAfter(k + 1), FileOf(run.write, records), |FileOf(run.write, records[..synced])|, records, synced, [])
  }

  /** It obeys every invariant of a run, as far as the run gets. */
  lemma MidStepIsSafe(run: Run, crc: Checksum, k: nat) returns (m: Moment)
    requires IsUnderway(run, crc) && k < run.Steps() && run.Possible(k + 1)
    ensures SafeMoment(run, m) && m.torn == [] && m.tree == run.TreeAfter(k + 1)
    ensures m.written == Before(run, k) && m.durable == SyncedBefore(run, k)
  {
    var records, synced := Before(run, k), SyncedBefore(run, k);
    BeforeStands(run, crc, k);
    EncodingsPrefix(run.write, records, synced);
    BatchIsSafe(run.Steps(), records, synced, k, EndOf(run.Steps(), k), k + 1);
    m := MidStep(run, k);
    assert Faithful(run.write, m) by {
      assert m.file + [] == m.file;
      assert HoldsItsRecords(run.write, m);
    }
    assert run.Reached(m.tree, k + 1);
  }

  // ---------------------------------------------------------------- lost completions

  lemma {:induction false} FirstChunksComeFirst(chunks: seq<seq<u8>>, k: nat)
    requires k <= |chunks|
    ensures |Concat(chunks[..k])| <= |Concat(chunks)| && Concat(chunks)[..|Concat(chunks[..k])|] == Concat(chunks[..k])
  {
    if k == |chunks| {
      assert chunks[..k] == chunks;
    } else {
      var front := chunks[..|chunks| - 1];
      FirstChunksComeFirst(front, k);
      assert front[..k] == chunks[..k];
    }
  }

  lemma FirstBytesComeFirst(chunks: seq<seq<u8>>, torn: seq<u8>, k: nat)
    requires k <= |chunks|
    ensures var bytes, length := Concat(chunks) + torn, |Concat(chunks[..k])|;
            length <= |bytes| && bytes[..length] == Concat(chunks[..k]) + []
  {
    FirstChunksComeFirst(chunks, k);
  }

  lemma SyncedBytesComeFirst(run: Run, crc: Checksum, m: Moment)
    requires run.write == Writer(crc, JOURNAL_SCHEMA_VERSION) && HoldsItsRecords(run.write, m) && m.durable < |m.written|
    ensures m.syncedLength <= |m.file|
    ensures m.file[..m.syncedLength] == Concat(Encodings(run.write, m.written)[..m.durable]) + []
    ensures [] < run.write(m.durable, m.written[m.durable]).value
  {
    var chunks := Encodings(run.write, m.written);
    EncodingsPrefix(run.write, m.written, m.durable);
    FirstBytesComeFirst(chunks, m.torn, m.durable);
    ResumableRecords(m.written, JOURNAL_SCHEMA_VERSION);
    EncodingsRead(crc, m.written, JOURNAL_SCHEMA_VERSION);
    assert chunks[m.durable] in chunks;
  }

  /** A crash may keep no more than what was synced. */
  lemma OnlySyncedSurvives(run: Run, crc: Checksum, m: Moment)
    requires run.write == Writer(crc, JOURNAL_SCHEMA_VERSION) && Faithful(run.write, m) && m.durable < |m.written|
    ensures m.syncedLength <= |m.file| && Measured(Reader(crc))
    ensures SurvivingRecords(crc, m.file[..m.syncedLength]) == m.written[..m.durable]
  {
    assert HoldsItsRecords(run.write, m) by { assert Unsealed(FaithfulSeal, 0); }
    SyncedBytesComeFirst(run, crc, m);
    RemainsAreFaithful(run.write, m, m.syncedLength, m.durable, []);
    FaithfulInspects(crc, JOURNAL_SCHEMA_VERSION, Remains(m, m.syncedLength, m.durable, []));
  }

  lemma FirstHasArrived(run: Run, width: nat)
    requires Plotted(run) && run.plan.entries != [] && run.Possible(run.Steps()) && |run.plan.entries| < width <= run.Steps()
    ensures HasArrived(run.TreeAfter(width), run.plan.entries[0]) && !KeepsTemporary(run.plan.entries[0])
  {
    ReachedIsLaid(run, width);
    PossibleIsUnobstructed(run);
    assert Spot(run.plan.entries, 0, width) == FinalAt(run.plan.entries[0]);
    assert UnsealedAt(LaidSeal, run.TreeAfter(width), 0);
  }

  /** In the first batch only the header and the announcement are synced. */
  lemma {:induction false} FirstBatchIsAnnounced(run: Run, k: nat)
    requires k < run.Steps() == 2 * |run.plan.entries| <= USIZE_MAX && k < FORWARD_JOURNAL_BATCH_STEPS
    ensures SyncedBefore(run, k) == 2 && |Before(run, k)| == k + 2 && Before(run, k)[..2] == Before(run, 0)
  {
    if k > 0 {
      FirstBatchIsAnnounced(run, k - 1);
      var front, more := Before(run, k - 1), Before(run, k);
      assert !StartsBatch(k);
      assert more == front + [ForwardStepCompleted(k - 1, MovedIn(run, k - 1))];
      assert more[..2] == front[..2];
    }
  }

  lemma FirstBatchIsTaken(run: Run, crc: Checksum, width: nat) returns (m: Moment)
    requires IsUnderway(run, crc) && 1 < width <= run.Steps() && width <= FORWARD_JOURNAL_BATCH_STEPS && run.Possible(run.Steps())
    ensures SafeMoment(run, m) && m.torn == [] && m.tree == run.TreeAfter(width)
    ensures m.durable == 2 < |m.written| && m.written[..2] == Before(run, 0)
  {
    m := MidStepIsSafe(run, crc, width - 1);
    FirstBatchIsAnnounced(run, width - 1);
  }

  /** For every plan with fewer sources than a batch has steps there is a moment of a run, with the first
      batch taken, at which a crash can leave a journal that recovery is refused for. */
  lemma LostCompletionsOvershoot(run: Run, crc: Checksum) returns (m: Moment)
    requires IsUnderway(run, crc) && run.plan.entries != []
    requires run.Possible(run.Steps()) && |run.plan.entries| < FORWARD_JOURNAL_BATCH_STEPS
    ensures SafeMoment(run, m) && m.durable == 2 && m.torn == []
    ensures m.tree == run.TreeAfter(Least(run.Steps(), FORWARD_JOURNAL_BATCH_STEPS))
    ensures m.syncedLength <= |m.file| && Measured(Reader(crc))
    ensures GoneAhead(run, SurvivingRecords(crc, m.file[..m.syncedLength]), m.tree)
  {
    var width := Least(run.Steps(), FORWARD_JOURNAL_BATCH_STEPS);
    m := FirstBatchIsTaken(run, crc, width);
    OnlySyncedSurvives(run, crc, m);
    FirstHasArrived(run, width);
    AnnouncementLagsBehind(run, crc, m.tree);
  }

  lemma AnnouncementLagsBehind(run: Run, crc: Checksum, tree: Tree)
    requires IsUnderway(run, crc) && run.plan.entries != []
    requires HasArrived(tree, run.plan.entries[0]) && !KeepsTemporary(run.plan.entries[0])
    ensures GoneAhead(run, Before(run, 0), tree)
  {
    BeforeStands(run, crc, 0);
    assert Unsealed(ForwardSeal, 0);
  }

  // ---------------------------------------------------------------- a source that is seen twice

  /** For every source that is given its own temporary name there is a moment of a run at which it waits under
      that name. Whatever a crash leaves then, no recovery gets any further. */
  lemma OwnTemporaryNameStrands(run: Run, crc: Checksum, i: nat) returns (m: Moment)
    requires IsUnderway(run, crc) && i < |run.plan.entries| && KeepsTemporary(run.plan.entries[i])
    ensures SafeMoment(run, m) && m.torn == [] && m.tree == run.TreeAfter(i + 1)
    ensures IsSeenTwice(m.tree, run.plan.entries[i]) && SeenTwice(run, m.tree)
  {
    FirstPassSucceeds(run, i + 1);
    m := MidStepIsSafe(run, crc, i);
    ReachedIsLaid(run, i + 1);
    assert Spot(run.plan.entries, i, i + 1) == TemporaryAt(run.plan.entries[i]);
    assert UnsealedAt(LaidSeal, m.tree, 0);
  }

  // ---------------------------------------------------------------- for instance

  const NAME_D: Name := [0x64]

  lemma EntryIsSmall(planId: u64, id: u64, name: Name, proposed: Name)
    requires |name| <= 100 && |proposed| <= 100
    ensures EncodeEntry(EntryFor(planId, id, name, proposed).journalEntry, JOURNAL_SCHEMA_VERSION).Success?
    ensures |EncodeEntry(EntryFor(planId, id, name, proposed).journalEntry, JOURNAL_SCHEMA_VERSION).value| <= 1000
  {
  }

  lemma HeaderIsWritten(planId: u64, generation: u64, a: Name, b: Name, crc: Checksum)
    requires |a| <= 100 && |b| <= 100
    ensures FrozenPlan(planId, generation, a, b).View().Indexed()
    ensures Writer(crc, JOURNAL_SCHEMA_VERSION)(0, FrozenPlan(planId, generation, a, b).InitialRecord()).Success?
  {
    var frozen := FrozenPlan(planId, generation, a, b);
    var entries := JournalEntries(frozen.entries);
    EntryIsSmall(planId, 1, NAME_A, a);
    EntryIsSmall(planId, 2, NAME_B, b);
    assert entries[1..] == [frozen.entries[1].journalEntry] && entries[1..][1..] == [];
    assert EncodeEntries(entries[1..], JOURNAL_SCHEMA_VERSION).Success?;
    assert |EncodeEntries(entries[1..], JOURNAL_SCHEMA_VERSION).value| <= 1000;
    Widths();
  }

  /** Two new names that are free and differ make a plan that is frozen, executed and recovered. */
  lemma FrozenRunIsUnderway(planId: u64, generation: u64, a: Name, b: Name, crc: Checksum)
    requires a != b && Location(HOME, a) !in Disk().tree && Location(HOME, b) !in Disk().tree && |a| <= 100 && |b| <= 100
    ensures var frozen := FrozenPlan(planId, generation, a, b);
            && IsFrozenAs(Preview(planId, generation, a, b), frozen) && frozen.View().Indexed()
            && IsUnderway(RunOf(frozen, crc), crc) && Recoverable(RunOf(frozen, crc))
            && (RunOf(frozen, crc).Possible(RunOf(frozen, crc).Steps()) <==> Unobstructed(frozen.entries))
  {
    var plan, frozen := Preview(planId, generation, a, b), FrozenPlan(planId, generation, a, b);
    PreviewIsFrozen(planId, generation, a, b);
    TwoFilesMove(planId, generation, a, b);
    FrozenRunIsPlotted(plan, frozen, crc);
    HeaderIsWritten(planId, generation, a, b, crc);
    HeaderIsConstructible(frozen);
  }

  lemma TwoFilesMove(planId: u64, generation: u64, a: Name, b: Name)
    requires Location(HOME, a) !in Disk().tree && Location(HOME, b) !in Disk().tree
    ensures Renames(Preview(planId, generation, a, b).rows)
  {
  }

  lemma HeaderIsConstructible(frozen: FrozenExecutionPlan)
    requires frozen.WellFormed()
    ensures RecordCodec.Constructible(frozen.InitialRecord()) && ValidHeader(frozen.InitialRecord())
  {
    HeaderExplains(frozen, Run(frozen.View(), map[], map[], (i, r) => Success([]), frozen.InitialRecord()));
  }

  /** The plan that renames `a` to `c` and `b` to `d` completes if left alone, and yet a crash can leave it
      where recovery is refused. */
  lemma OrdinaryPlanOvershoots(planId: u64, generation: u64, crc: Checksum) returns (m: Moment)
    ensures var frozen := FrozenPlan(planId, generation, NAME_C, NAME_D);
            && IsFrozenAs(Preview(planId, generation, NAME_C, NAME_D), frozen) && frozen.View().Indexed()
            && var run := RunOf(frozen, crc);
               && Recoverable(run) && run.Possible(run.Steps()) && SafeMoment(run, m) && m.tree == run.TreeAfter(run.Steps())
               && m.syncedLength <= |m.file| && Measured(Reader(crc))
               && GoneAhead(run, SurvivingRecords(crc, m.file[..m.syncedLength]), m.tree)
  {
    FrozenRunIsUnderway(planId, generation, NAME_C, NAME_D, crc);
    CollisionsMatter(planId, generation, NAME_C, NAME_D);
    m := LostCompletionsOvershoot(RunOf(FrozenPlan(planId, generation, NAME_C, NAME_D), crc), crc);
  }

  /** The plan that gives `a` its own temporary name cannot complete, and a crash can leave it where nothing
      but refusals follow. */
  lemma OwnTemporaryNamePlanStrands(planId: u64, generation: u64, crc: Checksum) returns (m: Moment)
    ensures var temporary := TemporaryName(planId, 1, 0);
            var plan, frozen := Preview(planId, generation, temporary, NAME_C), FrozenPlan(planId, generation, temporary, NAME_C);
            && IsFrozenAs(plan, frozen) && frozen.View().Indexed()
            && var run := RunOf(frozen, crc);
               Recoverable(run) && SafeMoment(run, m) && m.tree == run.TreeAfter(1) && SeenTwice(run, m.tree)
  {
    var temporary := TemporaryName(planId, 1, 0);
    FrozenRunIsUnderway(planId, generation, temporary, NAME_C, crc);
    CollisionsMatter(planId, generation, temporary, NAME_C);
    m := OwnTemporaryNameStrands(RunOf(FrozenPlan(planId, generation, temporary, NAME_C), crc), crc, 0);
  }
}
