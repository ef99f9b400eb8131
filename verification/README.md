# Renamewright, verified

Renamewright renames many files and directories at once. A preview computes the new names; freezing checks them
against the disk once more; a two-phase executor then renames every source first to a temporary and then to its final
name, so that swaps and cycles work with a rename that never replaces anything. A write-ahead journal announces steps
durably before they are taken, in batches of up to 32, while the completions are only buffered. After a crash, replaying
the journal says what may have been done; recovery settles what is open by looking at the disk. A finished transaction
can be undone by a second one that is built from the header of the first.

This project models that machinery in Dafny and proves what it is for. The main results, over every run, every pattern
of faults and every crash:

* **Crash bracket** (`Crash.CrashBracket`): whatever bytes of the journal survive, as long as they include the synced
  ones, their whole frames bracket the renames really applied.
* **All or nothing** (`Outcomes.OutcomesMean`, `Outcomes.Apply`): each outcome pins the tree down, matches the replayed
  status of the journal, loses and duplicates nothing and leaves unplanned names alone; an end that is reported survives
  every later crash (`Outcomes.OutcomesEndure`).
* **Every fault has its outcome** (`Executor.ExecuteFrozenPlan`, `Course.FirstHindranceDecides`, `Course.BackAimIs`): for any
  faults of renames, writes and syncs the executor comes to the one outcome that the answers of the disk call for.
* **Cycles** (`Cycles.CyclesSucceed`): any permutation of names succeeds, exactly unless a temporary name is the final name
  of its own or an earlier source.
* **Apply, then undo, is the identity** (`RoundTrip.UndoIsInverse`, `Outcomes.ApplyUndo`).
* **Recovery** (`Restart.RecoverAfterCrash`): from any moment of a run and whatever a crash leaves of its journal, the journal
  is opened again, what is open in it is settled with the disk, and the transaction is finished or taken back under the same
  promises, the next crash included; the refusals are exact.
* **The journal format** (`Journal.TruncationIsExact`, `Integrity.DecodedIsIntact`, `Canonical.DecodedIsWritten`,
  `RecordCodec.RecordRoundTrip`): exact on arbitrary bytes, at every cut, over six schema versions; what is damaged is
  refused at its place, and what decodes is what was written.
* **The protocol** (`Protocol.StatusTellsWhatIsNext`, `Replay.ReplayInvariant`): a replayed status names exactly the record
  that may come next, and every accepted journal completes its steps in order, announced ahead.
* **From preview to execution, and to the undo** (`Planner.ApplicablePlansAreSound`, `FrozenPlans.FrozenIsPlotted`,
  `Outcomes.FinishedPlansCanBeUndone`): an applicable plan that freezes meets the hypotheses of the cycle theorem.
* **The ledger** (`Discovery.Discover`, `Ledger.ListsTheStatus`, `Ledger.UndoIsListed`, `Lineage.ExecutedUndosWithdraw`): what
  it lists against what the journals record, and what it offers against what undo and recovery accept.

`dafny verify dfyconfig.toml` checks the whole project.

## How it is built

* `Machine` is the outside world: a map from (directory, name) to an entry, the journal file with how many of its bytes the
  last successful sync covers, oracles for rename, write and sync faults, and a ghost history of every state in between.
* `Appender`, `Executor`, `Recovery`, `Discovery`, `Planner` and `Registry` are imperative like their sources: classes and methods
  that change that world, proved against specifications over values. `Transaction` holds those: the moves of a plan, the tree
  after k steps, and when surviving records explain the tree. `Restart` calls the recovery actions one after another, as a user
  who recovers does.
* `Course` says what every run comes to, as functions of the faults that are ahead of it; the methods of the executor and of
  recovery are proved to come to exactly that.
* The codec is hidden behind a frame reader and a frame writer (`Frames`), so that the protocol proofs never look into it.
* Large invariants are sealed: `forall x :: Unsealed(seal, x) ==> Body()` means the same as `Body()`, but the solver opens it
  only where a proof asks for it (`Primitives`).

Assumptions, all stated as preconditions or parameters: an error of a rename means that nothing was renamed, except for
the two ambiguous kinds; nobody else changes the tree during a run; an entry has one name (no hard links) where a theorem
says `Injective`; a rename persists once performed; trouble in reading is never reported as an absent entry; the checksum,
the comparison key, the display form of names, the effect of a rule and the order of paths are arbitrary functions.

## What the code does not do

Seven places where the obvious promise is false of the code. Each has a concrete or general counterexample and the exact
condition under which the promise holds. That a torn journal is not opened is no such place: the repository wants incomplete
journals to fail closed, and `Restart.RecoverAfterCrash` says when it comes to that.

* Freezing never compares temporary names with final names. A plan whose final name is a temporary name of its own or a
  later source of the schedule fails half-way and is taken back (`Collisions.OwnTemporaryNameFails`); `Cycles.CyclesSucceed`,
  `FrozenPlans.FrozenIsPlotted` and `Outcomes.ExecutePlotted` give the exact condition.
* A completed transaction in which a temporary name has become a final name is not offered for undo, although it
  completed (`Collisions.EarlierTemporaryNameIsNotReady`); `RoundTrip.UndoIsOffered` gives the exact condition.
* A source that waits under a temporary name which is its final name as well is found twice, so a run that dies then can be
  neither settled, resumed nor taken back. `Stranded.OwnTemporaryNameStrands` gives such a moment for every source that is given
  its own temporary name, in plans of any size, and `Stranded.OwnTemporaryNamePlanStrands` a frozen plan. No other source is
  ever seen twice (`Recovery.DoublingShows`). `Recovery.RecoverTransaction` and `Restart.RecoverAfterCrash` never succeed while
  one is, and without faults they are refused for nothing else that concerns the disk, save the next item.
* A plan with fewer sources than a batch has steps is announced in a batch that spans both passes. If the buffered
  completions are lost after a source has taken both of its steps, reconciling finds it in an unexpected place and refuses,
  and neither resuming nor rolling back is available. It can happen to every plan of fewer than 32 sources that nothing
  stops (`Stranded.LostCompletionsOvershoot`, `Stranded.OrdinaryPlanOvershoots`) and to no plan of more
  (`Recovery.OnlySmallPlansOvershoot`); `Recovery.ReconcilePreparedStep` and `Restart.RecoverAfterCrash` are refused for it
  exactly if the source of a prepared first-pass step is found under its final name.
* At schema versions before 4 the codec accepts directory entries and writes them in a form that it refuses to read at the same
  version (`RecordCodec.DirectoriesAreUnreadableBeforeVersion4`); `RecordCodec.RecordRoundTrip` gives the exact condition. The
  program itself only writes versions from 5 on.
* The ledger lists journals of schema version 5 as recoverable, and the journal writer can resume them, but recovery and
  undo open a journal only at the current version 6 (`Ledger.OlderJournalsAreListedInVain`); `Ledger.RecoveryIsListed` and
  `Ledger.UndoIsListed` give the exact condition.
* Journals are read in the order of their ids within one byte limit, so it is the newest ones that stay unread. An undo
  among them does not count, and the transaction that it took back is offered once more (`Discovery.UnreadUndosDoNotCount`),
  exactly if no such undo is read within the limit (`Discovery.OfferedUnlessUndoIsRead`). At the limit of the program one
  damaged file is enough (`Discovery.ZerosHideTheUndo`). It never happens while the kept journals fit into the limit together
  (`Discovery.FittingUndosCount`), and the limit on the number of journals does no such harm (`Discovery.UndosAreKept`).

## Model

| member | source | states |
|---|---|---|
| `Outcomes.Apply` | crates/renamewright-application/src/lib.rs:2480-2516 | Freezing a previewed plan and executing it: it is refused only for the reasons that freezing has, and on a readable disk with room for temporary names only for a row that does not pass its checks; else every state of the disk on the way is crash safe down to the bytes of the journal and meets what recovery relies on; the outcome is all or nothing, has its cause on record and survives every later crash, finished means every changed source under its new name, and with a journal file that works it is what the renames make of it: finished if and only if nobody cancels, no rename fails and the temporary names keep clear of the final ones |
| `Outcomes.ApplyUndo` | crates/renamewright-platform/src/undo.rs:273-367 | Preparing and executing an undo: when everything is ready it is refused only in a crowded directory; it is as crash safe, recoverable and lasting as any other run and comes to what its renames make of it; finished means every original name holds its source again, and on the disk that the first transaction left, it means exactly the tree that the first transaction started from |
| `Outcomes.ExecutePlotted` | crates/renamewright-platform/src/executor.rs:247-327 | The run of any plan that meets the hypotheses of the cycle theorem: crash safe throughout, all or nothing, lasting, never finished after a cancellation, and with a journal file that works exactly what its first obstacle, refused rename or cancellation makes of it |
| `Outcomes.UnimpededRunsAreAimed` | crates/renamewright-platform/src/executor.rs:247-327 | With a journal file that works only the renames decide, whatever they answer; the run finishes if and only if nobody cancels, no rename fails and the temporary names keep clear of the final ones |
| `Outcomes.FinishedPlansCanBeUndone` | crates/renamewright-platform/src/undo.rs:200-261 | From the preview to the undo: straight after it has finished, an applied plan passes for an undo, and is ready if and only if no temporary name has become a final one |
| `Outcomes.OutcomesMean` | crates/renamewright-platform/src/executor.rs:329-535 | `Finished` means every source under its final name and nothing else touched, `TakenBack` the very tree of the beginning, `NeedsRecovery` the tree after some first steps; no entry is lost or duplicated and no unplanned name changes |
| `Outcomes.OutcomesEndure` | crates/renamewright-platform/src/executor.rs:440-535 | What is reported as finished, taken back or as a rollback that failed survives: whatever bytes of the journal a later crash leaves beyond the last sync, they replay to that very status, the step that failed included |
| `Outcomes.StepRecordsAreWritten` | crates/renamewright-platform/src/journal.rs:896-1043 | Every record but the header can always be encoded at its version, so only a fault or an exhausted sequence stops a run |
| `Outcomes.HeadersBoundSteps` | crates/renamewright-platform/src/journal.rs:946-975 | A header that can be encoded has so few sources that no run ever uses up the sequence numbers |
| `Outcomes.HeadersHaveAuthority` | crates/renamewright-platform/src/journal.rs:699-707 | The header of a frozen plan carries the identity of every directory |
| `Outcomes.FrozenIsRecoverable` | crates/renamewright-platform/src/recovery.rs:647-701 | Every frozen plan meets what recovery relies on, also one that a temporary name will stop |
| `Outcomes.UndoIsRecoverable` | crates/renamewright-platform/src/undo.rs:273-367 | So does every prepared undo, if the first transaction changed every name |
| `Execution.BuildTwoPhaseSchedule` | crates/renamewright-core/src/execution.rs:62-96 | Succeeds exactly for a non-empty list without duplicates that fits; the steps are the two passes over the ascending ids; each refusal says why, and a duplicate is the smallest one |
| `Execution.ScheduleIsCanonical` | crates/renamewright-core/src/execution.rs:62-96 | Any order of the same sources gives the same schedule, so recovery rebuilds it from the header |
| `Plans.FromEntries` | crates/renamewright-platform/src/executor.rs:202-226 | Sorts entries by id and schedules them; it fails exactly where the schedule builder does |
| `Plans.EntryIsUnique` | crates/renamewright-platform/src/executor.rs:192-200 | With ascending ids a lookup by id finds the one entry there is, whichever match a binary search hits |
| `Replay.ReplayJournal` | crates/renamewright-core/src/execution.rs:433-472 | The loop over the records computes the mode of the whole list, defined from the last record backwards, and stops at the first violation |
| `Replay.FailureSticks` | crates/renamewright-core/src/execution.rs:433-472 | Nothing after a protocol violation changes the verdict |
| `Replay.PrefixAccepted` | crates/renamewright-core/src/execution.rs:433-472 | Every non-empty prefix of an accepted journal is accepted |
| `Replay.ApplyKeepsCanonical` | crates/renamewright-core/src/execution.rs:474-692 | One record keeps the shape: done steps 0..next and a contiguous prepared window, or remaining steps counting down with only the first prepared or failed |
| `Replay.ReplayInvariant` | crates/renamewright-core/src/execution.rs:410-518 | Over every accepted list: that shape, and steps completed as 0, 1, 2, ... and taken back from the last one down, as far as the mode says |
| `Replay.TerminalStatusesAreEarned` | crates/renamewright-core/src/execution.rs:716-758 | `Completed` needs every step completed in order and none taken back; `RolledBack` needs every completed step taken back in the opposite order |
| `Replay.TerminalIsFinal` | crates/renamewright-core/src/execution.rs:474-518 | Nothing can follow a terminal record |
| `Protocol.StatusTellsWhatIsNext` | crates/renamewright-core/src/execution.rs:716-758 | The status names exactly the record that is accepted next, for every kind of step record |
| `Protocol.BatchesStartWhereStepsDo` | crates/renamewright-core/src/execution.rs:612-633 | A batch is accepted exactly where its first step is, if it ends within the schedule |
| `Protocol.TerminalMeansFinal` | crates/renamewright-core/src/execution.rs:474-518 | The terminal statuses are exactly those after which nothing is accepted |
| `Protocol.ForwardStepsAreAnnounced` | crates/renamewright-core/src/execution.rs:520-610 | Write-ahead: whatever is recorded about a forward step, it was announced before |
| `Protocol.RollbackStepsAreAnnounced` | crates/renamewright-core/src/execution.rs:635-692 | On the way back every outcome directly follows its own announcement |
| `Protocol.CauseIsOnRecord` | crates/renamewright-core/src/execution.rs:578-594 | The rollback that a journal is in or ended with was started exactly once, for the reported cause; one that goes forward or has finished started none |
| `Protocol.RollbackStartsWhen` | crates/renamewright-core/src/execution.rs:578-594 | When a rollback may start, for each cause, and what it leaves to be taken back |
| `Protocol.HeaderRefusals` | crates/renamewright-core/src/execution.rs:433-472 | Which journals are refused from the start, and why |
| `Protocol.RefusalsTell` | crates/renamewright-core/src/execution.rs:474-692 | Which refusal each record that is not accepted gets, and that it names the very record and step |
| `LittleEndian.GetPut` | crates/renamewright-platform/src/journal.rs:1417-1443 | Fixed-width little-endian numbers read back |
| `LittleEndian.LeastFirst` | crates/renamewright-platform/src/journal.rs:1417-1443 | The least significant byte comes first |
| `RecordCodec.RecordRoundTrip` | crates/renamewright-platform/src/journal.rs:946-1119 | Where encoding succeeds, decoding gives the record with exactly the fields erased that its version lacks, or refuses it exactly if that version cannot read its entry kinds; an identity without a path, which the program never builds, is dropped as well |
| `RecordCodec.ReadsEntry` | crates/renamewright-platform/src/journal.rs:1121-1235 | The same for one entry, with whatever bytes follow it |
| `RecordCodec.ReadsEntries` | crates/renamewright-platform/src/journal.rs:946-1043 | The same for the entry list of a header |
| `RecordCodec.RecordsAreLaidOut` | crates/renamewright-platform/src/journal.rs:946-1043 | Where the fields of a record are in its payload: the four numbers of a header before its entries, the step of a step record first |
| `RecordCodec.EntriesAreLaidOut` | crates/renamewright-platform/src/journal.rs:1121-1167 | An entry starts with its two ids and then its original, its temporary and its final name |
| `RecordCodec.ResumableVersionsKeepAll` | crates/renamewright-platform/src/journal.rs:1121-1235 | The versions that can be resumed lose nothing |
| `RecordCodec.DirectoriesAreUnreadableBeforeVersion4` | crates/renamewright-platform/src/journal.rs:1261-1291 | At the versions before 4 the codec writes every directory entry in a form that it refuses to read at the same version |
| `Journal.FrameRoundTrip` | crates/renamewright-platform/src/journal.rs:750-944 | One frame reads back, whatever follows it and whatever the checksum function is |
| `Journal.FrameTears` | crates/renamewright-platform/src/journal.rs:750-854 | Every proper prefix of a frame fails as torn |
| `Journal.ReaderIsSound` | crates/renamewright-platform/src/journal.rs:750-894 | Reading a frame depends on its own bytes only, and consumes what its length field says |
| `Journal.EncodeJournal` | crates/renamewright-platform/src/journal.rs:739-748 | The bytes are the frames of the records under the sequence numbers 0, 1, 2, ...; a failure names the first record that cannot be encoded |
| `Journal.DecodeJournal` | crates/renamewright-platform/src/journal.rs:750-854 | The offset loop computes the whole run of frames, or the first problem |
| `Journal.InspectJournal` | crates/renamewright-platform/src/journal.rs:860-877 | Returns the longest run of valid frames and the first problem behind it |
| `Journal.JournalRoundTrip` | crates/renamewright-platform/src/journal.rs:739-854 | Decoding an encoded journal gives the same records, erased to their version, in sequence |
| `Journal.TruncationIsExact` | crates/renamewright-platform/src/journal.rs:860-894 | On any byte prefix of a journal, inspection returns exactly the whole frames, with a torn tail if and only if the cut is off a frame boundary |
| `Journal.ResumableRecords` | crates/renamewright-platform/src/journal.rs:946-1119 | At the resumable versions the records come back unchanged |
| `Integrity.DecodedIsIntact` | crates/renamewright-platform/src/journal.rs:750-854 | A file decodes to some frames if and only if its bytes are those of intact frames, one after the other: the magic, the one version, no flags, the number of its place, the length of its payload and a checksum that covers all of that and the payload |
| `Integrity.InspectedIsIntact` | crates/renamewright-platform/src/journal.rs:750-877 | On arbitrary bytes inspection returns intact frames only, stops where no intact frame follows, and reports a reason that those bytes bear out |
| `Integrity.ExchangeIsNoticed` | crates/renamewright-platform/src/journal.rs:836-877 | A written frame whose covered bytes were exchanged for others of another checksum is refused with that at its place, whatever lies behind, and the frames before it come back |
| `Canonical.DecodedIsEncoded` | crates/renamewright-platform/src/journal.rs:946-1415 | A payload decodes to a record if and only if it is what encoding writes, under that kind, for a record that reads as it: no bytes behind a record are accepted |
| `Canonical.SpellingsAgree` | crates/renamewright-platform/src/journal.rs:946-1235 | It is the encoding of the very record that was read, unless that is a header of version 5 or later with an entry that has no path |
| `Canonical.StrayIdentitiesAreDropped` | crates/renamewright-platform/src/journal.rs:1209-1229 | and then there are two: with and without the identity of the directory the same entry is read |
| `Canonical.DecodedIsWritten` | crates/renamewright-platform/src/journal.rs:739-1415 | A file that decodes is, byte for byte, what writing its records gives, if no entry lacks a path, and else what writing records gives that read as those |
| `Frames.DecodeFrames` | crates/renamewright-platform/src/journal.rs:750-854 | The decoding loop, for any frame reader that consumes what it measures |
| `Frames.CompletePrefixLength` | crates/renamewright-platform/src/journal.rs:879-894 | The length of the first frames, judged by their length fields alone |
| `Frames.InspectFrames` | crates/renamewright-platform/src/journal.rs:860-877 | Inspection by decoding the measured prefix once more equals the one-pass scan; the fall-back to no frames never fires |
| `Frames.DamageStaysBehind` | crates/renamewright-platform/src/journal.rs:860-894 | On arbitrary bytes: the prefix before the damage measures right and decodes to exactly the frames before it |
| `Frames.TornTailIsExact` | crates/renamewright-platform/src/journal.rs:860-894 | Whole frames followed by a torn one: exactly the whole frames come back |
| `Frames.CutChunks` | crates/renamewright-platform/src/journal.rs:860-894 | A cut at any byte leaves some first frames whole and at most one torn |
| `Frames.EncodeFrames` | crates/renamewright-platform/src/journal.rs:739-748 | The encoding loop, for any frame writer |
| `Machine.Machine.RenameNoReplaceInParent` | crates/renamewright-platform/src/execution_fs.rs:66-129 | The contract of the filesystem: a success moved exactly this entry onto a free name, an error left the tree alone, except for the two ambiguous kinds |
| `Machine.Machine.WriteFrame` | crates/renamewright-platform/src/journal.rs:544-557 | A failed write leaves some bytes of the frame behind, possibly all |
| `Machine.Machine.SyncAll` | crates/renamewright-platform/src/journal.rs:544-557 | A successful sync makes all bytes of the file durable |
| `Appender.DurableAppender.Append` | crates/renamewright-platform/src/journal.rs:599-643 | Nothing follows a poisoned write or a terminal record, and the refusal says which; a success is the last whole frame and makes every earlier record durable; a failure accepts nothing, and which of the two it is depends on the next write and sync alone |
| `Appender.DurableAppender.AppendBufferedCompletion` | crates/renamewright-platform/src/journal.rs:604-617 | The same for completions, which are written without a sync of their own; every other record falls back to a durable append |
| `Appender.DurableAppender.AppendInitial` | crates/renamewright-platform/src/journal.rs:589-597 | The header is refused without directory identities, and durable otherwise, unless the next write or sync fails |
| `Appender.DurableAppender.AppendRecord` | crates/renamewright-platform/src/journal.rs:645-696 | Encode, write, sync; a failed write or sync poisons the writer, and the sequence number only counts accepted records |
| `Appender.DurableAppender.Persist` | crates/renamewright-platform/src/journal.rs:645-696 | A frame written and, if asked for, synced; what is in the file when either fails |
| `Appender.DurableAppender.Resume` | crates/renamewright-platform/src/journal.rs:579-587 | A resumed writer continues the records that are in the file |
| `Appender.FrameKeepsFaith` | crates/renamewright-platform/src/journal.rs:559-697 | At every moment the file is the frames of its records and at most one torn frame |
| `Transaction.ReverseUndoes` | crates/renamewright-platform/src/executor.rs:440-516 | Taking a rename back is always possible and restores the tree exactly |
| `Transaction.BatchOpens` | crates/renamewright-platform/src/executor.rs:274-289 | Announcing the next steps, singly or as a batch, keeps the journal an explanation of the tree |
| `Transaction.BatchAdvances` | crates/renamewright-platform/src/executor.rs:347-415 | Inside a batch one more completion keeps every record list that can survive a crash inside the batch |
| `Transaction.BatchIsSafe` | crates/renamewright-platform/src/executor.rs:329-416 | Inside a batch whatever survives of the journal explains the tree before and after the current step alike |
| `Transaction.RollbackBegins` | crates/renamewright-core/src/execution.rs:520-610 | Starting a rollback keeps the explanation, with the steps taken so far remaining |
| `Transaction.RollbackSteps` | crates/renamewright-core/src/execution.rs:635-692 | A step completed backwards leaves one step fewer remaining |
| `Transaction.RollbackEnds` | crates/renamewright-core/src/execution.rs:635-692 | With nothing remaining the transaction may be declared rolled back, with the same cause |
| `Transaction.ForwardEnds` | crates/renamewright-core/src/execution.rs:520-610 | With every step completed the transaction may be declared completed |
| `Executor.ExecuteFrozenPlan` | crates/renamewright-platform/src/executor.rs:247-327 | The header is durable before anything is renamed; at every moment what a crash leaves of the records explains the tree; the outcome keeps its promise, matches the replayed status and, where it calls for recovery, names the step and the state that replay will find; and it is, for any faults of renames, writes and syncs, the one that the answers of the disk call for |
| `Executor.ContinueForward` | crates/renamewright-platform/src/executor.rs:329-416 | From any legal resume point, forward batch by batch to completion or to the first trouble, with every promise of the outcome; which one it is follows from the faults ahead alone |
| `Course.GoingIsAimed` | crates/renamewright-platform/src/executor.rs:329-416 | With a journal file that works the batches make no difference: what a run comes to depends on the renames and cancellations alone |
| `Course.AimIsToFinish` | crates/renamewright-platform/src/executor.rs:329-416 | A run finishes if and only if every step is possible, nobody cancels and no rename fails |
| `Course.FirstHindranceDecides` | crates/renamewright-platform/src/executor.rs:347-435 | The first cancellation, obstacle or refused rename has the steps before it taken back, with that as the cause; a rename in doubt stops the run there |
| `Course.BackAimIs` | crates/renamewright-platform/src/executor.rs:440-516 | A rollback succeeds if and only if no rename fails; the first that does is reported with its step and the kind that it answered, in doubt or not |
| `Course.TakingBackIsAimed` | crates/renamewright-platform/src/executor.rs:440-516 | With a journal file that works that is what taking steps back comes to |
| `Executor.GoForward` | crates/renamewright-platform/src/executor.rs:342-413 | The batches from the resume point on |
| `Executor.ReportsForward` | crates/renamewright-platform/src/executor.rs:353-404 | What an outcome reports about a forward step is what replaying the journal says |
| `Executor.ReportsBackward` | crates/renamewright-platform/src/executor.rs:453-512 | The same on the way back |
| `Executor.ForwardRound` | crates/renamewright-platform/src/executor.rs:345-415 | One batch: announced durably, then taken |
| `Executor.ForwardBatch` | crates/renamewright-platform/src/executor.rs:347-415 | The steps of a batch, with a look at cancellation before each; a rollback names its true cause, and the faults ahead decide what it comes to |
| `Executor.ForwardStep` | crates/renamewright-platform/src/executor.rs:347-415 | One rename, journaled as completed, failed or ambiguous; it goes on or ends as the answer of the rename and of the journal file calls for |
| `Executor.AppendForwardBatch` | crates/renamewright-platform/src/executor.rs:274-289 | One step is announced as such, more as a batch of at most 32 |
| `Executor.StartRollback` | crates/renamewright-platform/src/executor.rs:418-438 | From forward mode, the cause is announced and the steps taken are taken back; the rollback, complete or stuck, has that cause on record |
| `Executor.ContinueRollback` | crates/renamewright-platform/src/executor.rs:440-516 | Walks a prefix of the schedule back; stops where a rename fails, with the step, the kind and the cause that this calls for; ends where the transaction started otherwise |
| `Executor.RollbackStep` | crates/renamewright-platform/src/executor.rs:440-516 | One step back: announced durably, renamed, completed; the faults ahead decide what comes of it |
| `Executor.AfterRollback` | crates/renamewright-platform/src/executor.rs:440-516 | What became of a step back is journaled: an ambiguous error is reported as such with nothing appended, any other is reported with its kind, appends exactly the failure of this step and leaves the status at recovery required for the same cause |
| `Executor.CompleteTransaction` | crates/renamewright-platform/src/executor.rs:518-525 | `Finished` is reported only once the terminal record, and every other, is durable; if the journal takes it, it is |
| `Executor.CompleteRollback` | crates/renamewright-platform/src/executor.rs:527-535 | `TakenBack` with the cause on record is reported only once the terminal record, and every other, is durable; if the journal takes it, it is |
| `Executor.TakingAStepIsSound` | crates/renamewright-platform/src/executor.rs:347-415 | A step taken inside an announced batch leaves every surviving record list an explanation |
| `Executor.TakingBackIsSound` | crates/renamewright-platform/src/executor.rs:440-516 | So does a step taken back once that is announced |
| `Executor.TakingBackIsPossible` | crates/renamewright-platform/src/executor.rs:440-516 | A step that was taken can always be taken back, as far as the tree is concerned |
| `Executor.AppendKeepsSound` | crates/renamewright-platform/src/executor.rs:267-313 | Every state in the middle of an append is as safe as the states before and after |
| `Crash.CrashBracket` | crates/renamewright-platform/src/journal.rs:599-696 | At every moment of every run, whatever bytes a crash leaves beyond the last sync: the whole frames bracket the renames really applied, and a problem is only ever a torn tail |
| `Crash.FaithfulInspects` | crates/renamewright-platform/src/journal.rs:860-894 | Inspecting the journal of a run returns exactly the records in it, and reports a torn tail if and only if a torn frame follows them |
| `Crash.CutsAreFaithful` | crates/renamewright-platform/src/journal.rs:860-894 | A cut behind the synced bytes leaves again a journal of whole frames and at most one torn one, with the durable records in it |
| `Crash.SurvivorsArePrefix` | crates/renamewright-platform/src/journal.rs:860-894 | A cut through the journal file leaves a prefix of its records that keeps the durable ones |
| `Cycles.CyclesSucceed` | crates/renamewright-platform/src/executor.rs:347-415 | For any permutation: the whole schedule runs without meeting an occupied name if and only if no temporary name is the final name of its own or an earlier source; then every source is at its final name |
| `Cycles.ReachedIsLaid` | crates/renamewright-platform/src/executor.rs:347-415 | After any number of steps each source is exactly where the schedule has brought it, and everything else is untouched |
| `Cycles.StepIsFree` | crates/renamewright-platform/src/executor.rs:347-415 | A step is possible if and only if no other source is at its target |
| `Cycles.WaitingBlocks` | crates/renamewright-platform/src/executor.rs:347-415 | A source waiting under a temporary name blocks the arrival of its own or an earlier source there |
| `Cycles.FirstPassSucceeds` | crates/renamewright-platform/src/executor.rs:347-415 | Every source reaches its temporary name, whatever the final names are |
| `Cycles.RunsConserve` | crates/renamewright-platform/src/executor.rs:329-516 | However far a run gets, no entry is lost or duplicated |
| `Cycles.RunsKeepUnplannedNames` | crates/renamewright-platform/src/executor.rs:329-516 | Names outside the plan keep their entries |
| `Hex.ParsePadded` | crates/renamewright-platform/src/ledger.rs:539-549 | Zero-padded hexadecimal numbers parse back |
| `Lookup.TemporaryNamesDiffer` | crates/renamewright-platform/src/execution_fs.rs:159-172 | Temporary names of different plans, sources or attempts differ |
| `Lookup.TemporaryNamesTell` | crates/renamewright-platform/src/execution_fs.rs:159-172 | A temporary name has a fixed form that tells its plan, its source and its attempt |
| `Lookup.TakenNamesCrowd` | crates/renamewright-platform/src/executor.rs:749-780 | All the names that are tried for a source are taken only where a directory holds at least 1024 entries |
| `Lookup.AvailableTemporaryName` | crates/renamewright-platform/src/executor.rs:749-780 | The name returned is the first of the attempts at which nothing is; on a disk that tells the truth it is given up only if every attempt is taken, and so only among at least 1024 entries; trouble is reported for the first attempt that the disk does not tell about, with its kind |
| `Undo.OwnedFinalDestinations` | crates/renamewright-platform/src/undo.rs:399-422 | Succeeds exactly if every entry has a path and no two final names compare equal; then it holds the final destinations and nothing else |
| `Undo.InspectEntries` | crates/renamewright-platform/src/undo.rs:227-254 | Ready exactly if every source is where the transaction left it and its original name is free or about to become free; a block names the first obstacle, for what was read there; where the disk does not tell, the inspection fails with that entry and error kind |
| `Undo.InspectUndoRecords` | crates/renamewright-platform/src/undo.rs:200-261 | The same for a whole journal; refused exactly unless it is a completed transaction that is no undo and whose final names differ, and every refusal says why and for which entry |
| `Undo.ReverseEntries` | crates/renamewright-platform/src/undo.rs:296-344 | Every entry reversed once, still the same source, under the id of the plan that it undoes and by way of a fresh temporary name; each refusal says what is so |
| `Undo.UsedUpNamesCrowd` | crates/renamewright-platform/src/undo.rs:296-344 | Names run out only in a directory with at least 1024 entries |
| `Undo.PrepareUndo` | crates/renamewright-platform/src/undo.rs:273-348 | The new plan reverses every entry once, by way of fresh temporary names; on a readable disk that is still ready it succeeds unless a directory is crowded, and every refusal says what is so |
| `RoundTrip.UndoIsPlotted` | crates/renamewright-platform/src/undo.rs:200-348 | Readiness discharges the hypotheses of the cycle theorem for the reversed names |
| `RoundTrip.UndoRestoresNames` | crates/renamewright-platform/src/undo.rs:200-348 | A ready undo restores every original name, chains and swaps included, if and only if its temporary names keep clear of the original ones |
| `RoundTrip.UndoIsInverse` | crates/renamewright-platform/src/undo.rs:200-348 | Apply, then undo, is the identity on the whole tree |
| `RoundTrip.UndoIsOffered` | crates/renamewright-platform/src/undo.rs:200-261 | After a completed transaction an undo passes and is ready if and only if no two final names of a directory compare equal and no temporary name has become a final one |
| `Registry.RepeatsAreNeighbours` | crates/renamewright-platform/src/lib.rs:180-181 | Sorting and dropping repeated neighbours leaves every path once |
| `Registry.RepeatsLoseNoPath` | crates/renamewright-platform/src/lib.rs:180-181 | and no path is dropped altogether |
| `Registry.SortedIsInOrder` | crates/renamewright-platform/src/lib.rs:180-256 | New sources have new ids without a gap, in the order of their paths |
| `Registry.AdmittedIsRead` | crates/renamewright-platform/src/lib.rs:196-217 | Whatever the registry knows of a new source is what the disk answered for it |
| `Registry.PrepareCandidates` | crates/renamewright-platform/src/lib.rs:196-217 | One candidate that changed meanwhile refuses the whole admission; otherwise exactly the new ones are prepared |
| `Registry.AdmissionKeepsCoherence` | crates/renamewright-platform/src/lib.rs:219-263 | Admitting a source keeps the maps mutually inverse, and parents known exactly while a source lives there |
| `Registry.OneMoreGrows` | crates/renamewright-platform/src/lib.rs:221-256 | Old sources keep their ids, names and identities, new ids were never used |
| `Registry.RetainingRestoresCoherence` | crates/renamewright-platform/src/lib.rs:282-294 | Forgetting parents without sources restores coherence |
| `Registry.SourceRegistry.AdmitPathsCount` | crates/renamewright-platform/src/lib.rs:163-190 | A refused admission changes nothing and says why; a successful one admits exactly the selected paths that are new, under the next ids without a gap in the order of their paths, with what the disk says of them, and under a new generation; past generations keep their contents |
| `Registry.SourceRegistry.AdmitCandidates` | crates/renamewright-platform/src/lib.rs:192-264 | The same below the path checks, with the exact condition of failure |
| `Registry.SourceRegistry.AdmitOne` | crates/renamewright-platform/src/lib.rs:221-256 | The new contents of all six maps and both counters |
| `Registry.SourceRegistry.RemoveSources` | crates/renamewright-platform/src/lib.rs:271-296 | Exactly the listed sources go and are counted, the others and their directories stay as they were, and the generation moves on exactly if something was removed |
| `Registry.SourceRegistry.TakePlanningSnapshot` | crates/renamewright-platform/src/lib.rs:299-308 | The cached snapshot always equals a fresh one, and its generation stands for its contents |
| `Sequence.IndicesAreComplete` | crates/renamewright-core/src/planner.rs:378-388 | The order is a permutation of the sources |
| `Sequence.IndicesAreOrdered` | crates/renamewright-core/src/planner.rs:378-388 | With distinct ids it is strictly ascending |
| `Sequence.OrdersTell` | crates/renamewright-core/src/planner.rs:378-388 | By id, or by the first byte in which the names differ, a prefix first, and then by id |
| `Sequence.AllocateSequence` | crates/renamewright-core/src/planner.rs:390-423 | Each value is start plus step times the number of earlier sources in its scope, or absent exactly when that exceeds 64 bits |
| `Sequence.ValueIsByRank` | crates/renamewright-core/src/planner.rs:378-423 | A value depends only on how many sources come before in scope |
| `Sequence.InputOrderIsIrrelevant` | crates/renamewright-core/src/planner.rs:378-423 | The same sources in another order get the same values |
| `Sequence.ValuesAreDistinct` | crates/renamewright-core/src/planner.rs:390-423 | Within a scope values ascend strictly with the order |
| `PlanRows.TraceBudget.Retain` | crates/renamewright-core/src/planner.rs:50-57 | Takes the bytes out of the budget, or exhausts it |
| `PlanRows.ApplyRules` | crates/renamewright-core/src/planner.rs:273-331 | The name is what the rules make of it; the trace is the full one if the budget pays for it, and else the longest part of it that it pays for |
| `PlanRows.BuildRow` | crates/renamewright-core/src/planner.rs:264-350 | The row of a source: its name, diagnostics and status after a failing rule, an override or all rules, and what its trace leaves of the budget |
| `PlanRows.RewritingIsChained` | crates/renamewright-core/src/planner.rs:273-331 | Trace steps chain from the original name on, one for each applicable rule unless a rule failed |
| `PlanRows.PreviewsAreChained` | crates/renamewright-core/src/planner.rs:273-331 | The trace in a row starts from the original name and chains; if nothing was cut off, it ends with the name that the rules make and has one step for each applicable rule |
| `PlanRows.StepsAreOfTheirRules` | crates/renamewright-core/src/planner.rs:273-331 | The steps are those of the rules that are for the source, in their order, none left out unless a rule failed |
| `PlanRows.RetainedIsShared` | crates/renamewright-core/src/planner.rs:25-48 | A trace counts its first text once and every text that a step has made |
| `PlanRows.PreviewMeans` | crates/renamewright-core/src/planner.rs:332-454 | A row is blocked exactly for a diagnostic that blocks; a failing rule is the only one, and otherwise the name has passed exactly the checks of the target |
| `PlanRows.RewritingStops` | crates/renamewright-core/src/planner.rs:298-311 | After a failing rule nothing more happens |
| `Planner.NewPlan` | crates/renamewright-core/src/model.rs:515-538 | The counts and the retained trace bytes of a plan |
| `Planner.MarkWhere` | crates/renamewright-core/src/planner.rs:481-503 | Blocks exactly the rows that a check objects to |
| `Planner.GroupByKey` | crates/renamewright-core/src/planner.rs:456-472 | Groups the rows by directory and comparison key |
| `Planner.MarkDuplicates` | crates/renamewright-core/src/planner.rs:456-479 | Blocks exactly the rows that share their destination with another |
| `Planner.Screen` | crates/renamewright-core/src/planner.rs:241-257 | After the five passes every row is blocked for exactly the reasons that apply to it, listed in the order of the passes |
| `Planner.JudgedMeans` | crates/renamewright-core/src/planner.rs:241-257 | A screened row proposes what was built, is blocked exactly if it was before or a reason applies, and lists exactly the reasons that apply or that it listed before |
| `Planner.JudgedInOrder` | crates/renamewright-core/src/planner.rs:481-503 | It lists each reason once, as one that blocks, in the order of the passes and behind what it listed when it was built |
| `Planner.ValidateOverrides` | crates/renamewright-core/src/planner.rs:352-376 | Accepts exactly the lists of known, distinct, short overrides |
| `Planner.AllocateAll` | crates/renamewright-core/src/planner.rs:204-220 | Every sequence rule gets the values of its allocation over the sources, in the order that it asks for; only a cancellation keeps it from that |
| `Planner.ValuesReachTheRules` | crates/renamewright-core/src/planner.rs:204-236 | A rule that allocates is given the value that is allocated to the source, any other rule none |
| `Planner.BuildRows` | crates/renamewright-core/src/planner.rs:221-236 | One row for each source; the traces of all rows together stay within the budget, and the first trace that is cut short would have used it up |
| `Planner.BuildPlan` | crates/renamewright-core/src/planner.rs:189-262 | The whole plan: what its rows hold for exactly the given overrides, its counts, its trace bytes within the limit; refused overrides block every row |
| `Planner.OverridesReachTheRows` | crates/renamewright-core/src/planner.rs:221-236 | An override reaches the row of its source unless a rule fails there, and any other row proposes what the rules make of its name |
| `Planner.ApplicablePlansAreSound` | crates/renamewright-core/src/model.rs:515-568 | A plan can be applied if and only if some name changes and nothing is blocked or objected to; then no two proposed names of a directory compare equal, none is occupied and no row is stale, nested or orphaned |
| `Freeze.FreezeRow` | crates/renamewright-platform/src/executor.rs:639-735 | One row: known to the registry, still where it was admitted, its final name free or held by a planned source, its temporary name free; each refusal means that one of these fails |
| `Freeze.CheckPlaces` | crates/renamewright-platform/src/executor.rs:675-715 | The source is still the one that was admitted, and its final name is free or held by a planned source; each refusal says which is not so |
| `Freeze.FreezeRows` | crates/renamewright-platform/src/executor.rs:604-736 | All changed rows, none twice, or the refusal of one of them |
| `Freeze.OnlyNamesRunOut` | crates/renamewright-platform/src/executor.rs:604-734 | On a readable disk, rows that pass the checks are only refused for want of a temporary name |
| `Freeze.NamesRunOutInCrowds` | crates/renamewright-platform/src/executor.rs:749-780 | and on a disk that tells the truth that takes a directory with at least 1024 entries |
| `Freeze.CheckedRowsAreFrozen` | crates/renamewright-platform/src/executor.rs:604-747 | On a readable disk without such a directory no row that passes the checks is refused |
| `Freeze.FreezeExecutionPlan` | crates/renamewright-platform/src/executor.rs:585-747 | The frozen plan; an inapplicable or outdated plan is refused first, any other only because of one of its rows; on a readable disk it succeeds if its rows pass the checks and no directory is crowded |
| `FrozenPlans.FrozenIsPlotted` | crates/renamewright-platform/src/executor.rs:585-747 | A successful freeze of a sound plan discharges all hypotheses of the cycle theorem but one: temporary names against final ones |
| `FrozenPlans.FrozenIsComplete` | crates/renamewright-platform/src/executor.rs:162-200 | A frozen plan is never taken for an invalid one |
| `Collisions.PreviewIsFrozen` | crates/renamewright-platform/src/executor.rs:585-747 | Freezing two sources of one directory under any two new names that are free and differ succeeds, whatever temporary names are chosen |
| `Collisions.OwnTemporaryNameFails` | crates/renamewright-platform/src/executor.rs:585-747 | A plan for every plan id that can be applied and is frozen, but cannot be completed: a source is given the very temporary name that freezing chooses for it |
| `Collisions.EarlierTemporaryNameBlocksUndo` | crates/renamewright-platform/src/undo.rs:200-261 | A plan for every plan id that can be applied, is frozen and completes, but gives a source the temporary name of an earlier one |
| `Collisions.EarlierTemporaryNameIsNotReady` | crates/renamewright-platform/src/undo.rs:200-261 | Its finished journal passes for an undo, and yet the disk that it leaves is not ready for one |
| `Collisions.CollisionsMatter` | crates/renamewright-platform/src/executor.rs:585-747 | Which of two new names may be which of two temporary ones, for completing and for an undo |
| `FrozenPlans.RowsAreApart` | crates/renamewright-platform/src/executor.rs:622-650 | Different sources have different paths, and in one directory different final names |
| `FrozenPlans.SoundNamesAreApart` | crates/renamewright-core/src/planner.rs:456-479 | A sound plan keeps the proposed names of a directory apart, under the comparison key as well |
| `RecoveryState.PlanFromRecords` | crates/renamewright-platform/src/recovery.rs:653-687 | The plan that a header describes, and why there may be none |
| `RecoveryState.HeaderGivesThePlan` | crates/renamewright-platform/src/recovery.rs:653-701 | It is the plan of the run |
| `RecoveryState.SourceIsFound` | crates/renamewright-platform/src/recovery.rs:856-892 | With one name for each entry, a source is found exactly where the steps have left it, once under each of its names that lead there |
| `RecoveryState.FoundOnceOrTwice` | crates/renamewright-platform/src/recovery.rs:856-892 | That is one place, and two exactly if the source has left for a temporary name that is its final name as well |
| `RecoveryState.ForwardDisposition` | crates/renamewright-platform/src/recovery.rs:763-835 | What the place of a source says about its prepared step, exactly |
| `RecoveryState.BackwardDisposition` | crates/renamewright-platform/src/recovery.rs:763-835 | The same on the way back, where it always tells |
| `RecoveryState.RecordsTellPlaces` | crates/renamewright-platform/src/recovery.rs:703-729 | The completions on record say exactly where the standing steps leave every source |
| `Recovery.OpenJournal` | crates/renamewright-platform/src/journal.rs:209-357 | The journal of a run, torn or not, is opened for writing exactly if it is not too large and not torn, names its directories, follows the protocol and is not finished; each refusal says which of these is not so |
| `Recovery.InspectPreparedRecords` | crates/renamewright-platform/src/recovery.rs:763-835 | The disposition of the first prepared step, told exactly; it is in several places exactly if its source is seen twice; each refusal says what is so, and trouble comes with the kind that the disk answered |
| `Recovery.ReconcilePreparedStep` | crates/renamewright-platform/src/recovery.rs:473-545 | Settling the first prepared step appends exactly the record that the number of steps really taken calls for, keeps the journal an explanation of the disk and leaves fewer prepared steps; on a readable disk it is refused if and only if the disk shows the source of a first-pass step under its final name, which never happens with 32 sources or more, or sees the source twice; any other refusal says what the disk did not tell |
| `Recovery.SettleStep` | crates/renamewright-platform/src/recovery.rs:507-545 | The same once the disk has been looked at: the record, the durable append and the new status |
| `Recovery.SettlementExplains` | crates/renamewright-platform/src/recovery.rs:507-545 | The record that is appended is the one the disk calls for; it turns nothing round and settles at least one step |
| `Recovery.OvershootingShows` | crates/renamewright-platform/src/recovery.rs:763-835 | The steps taken exceed the reach of the first prepared one if and only if its source is found under its final name |
| `Recovery.DoublingShows` | crates/renamewright-platform/src/recovery.rs:856-892 | A source is seen twice if and only if it was given its own temporary name and has left for it |
| `Recovery.WindowsAreNarrow` | crates/renamewright-core/src/execution.rs:520-633 | However a journal goes on, no more than 32 steps are ever prepared at once |
| `Recovery.OnlySmallPlansOvershoot` | crates/renamewright-platform/src/executor.rs:343-347 | With at least as many sources as a batch has steps, no prepared step is overtaken |
| `Stranded.BeforeStands` | crates/renamewright-platform/src/executor.rs:343-415 | The journal of a run before each of its steps: every earlier batch is completed, the last one is announced durably, and whatever survives stands inside it |
| `Stranded.MidStepIsSafe` | crates/renamewright-platform/src/executor.rs:343-415 | Right after the rename of any step the disk obeys every invariant of a run, with the completions since the last announcement not yet synced |
| `Stranded.LostCompletionsOvershoot` | crates/renamewright-platform/src/executor.rs:343-415 | For every plan with fewer sources there is such a moment, the first batch taken and only its announcement synced, at which a crash can leave a journal that recovery is refused for |
| `Stranded.OrdinaryPlanOvershoots` | crates/renamewright-platform/src/executor.rs:343-415 | It happens to the plan that renames two files of one directory, which is frozen and completes if left alone |
| `Stranded.OnlySyncedSurvives` | crates/renamewright-platform/src/journal.rs:860-894 | The records that are not durable can all be lost |
| `Stranded.OwnTemporaryNameStrands` | crates/renamewright-platform/src/executor.rs:343-415 | For every source that is given its own temporary name there is such a moment at which it is seen twice |
| `Stranded.OwnTemporaryNamePlanStrands` | crates/renamewright-platform/src/executor.rs:585-747 | It happens to a frozen plan for every plan id |
| `Stranded.FrozenRunIsUnderway` | crates/renamewright-platform/src/executor.rs:585-747 | Any two new names that are free and differ make a plan that is frozen, whose header can be written and that meets what executing and recovering rely on |
| `Recovery.ValidateRecordedState` | crates/renamewright-platform/src/recovery.rs:703-761 | Succeeds only if every source is in the one place where the records say it is, reports a changed state only for a source that is found elsewhere, and trouble only where the disk does not tell |
| `Recovery.SettledDiskAgrees` | crates/renamewright-platform/src/recovery.rs:703-761 | While nothing is prepared, the disk of a run agrees with its records if and only if no source is seen twice |
| `Recovery.ElsewhereIsSeenTwice` | crates/renamewright-platform/src/recovery.rs:703-761 | A source that is found elsewhere while nothing is prepared is one that is seen twice |
| `Recovery.SeenTwiceNeverAgrees` | crates/renamewright-platform/src/recovery.rs:703-761 | While a source is seen twice the disk agrees with no records at all |
| `Recovery.PlanInAgreement` | crates/renamewright-platform/src/recovery.rs:647-761 | The plan of the journal, checked against the disk: it is that of the run, and with nothing prepared on a readable disk it is refused, for a changed state, if and only if a source is seen twice; any other refusal is one of the disk |
| `Recovery.CarryOn` | crates/renamewright-platform/src/recovery.rs:600-644 | Every status leads to the right continuation: the outcome is the one that the status, the action and the faults ahead call for |
| `Recovery.RestartRollback` | crates/renamewright-platform/src/recovery.rs:625-639 | A failed rollback goes on after the renewed attempt is announced, from the step that failed and for the cause on record |
| `Recovery.RecoverTransaction` | crates/renamewright-platform/src/recovery.rs:568-645 | Recovery keeps every promise of an outcome, comes to what the status, the action and the faults ahead call for, and never reports an invalid plan; on a readable disk it is refused exactly for a prepared step, for a journal that is not to be resumed and for a source that is seen twice |
| `Recovery.CarryingIsAimed` | crates/renamewright-platform/src/recovery.rs:600-644 | With a journal file that works that is a matter of the renames and cancellations alone: a resumed run goes on from the step that it had reached, anything else is taken back for the cause on record or the one that was asked for |
| `Restart.RecoverAfterCrash` | crates/renamewright-platform/src/recovery.rs:473-645 | From any moment of any run, any crash and any faults: the journal that is left is opened, its prepared steps are settled one by one, and the transaction is finished or taken back. It is refused at the start exactly for a journal that is too large or torn or for a transaction that is over, later without faults exactly for a source gone ahead of its lost completion or one that is seen twice, and every refusal says what is so; a refusal leaves the tree alone, an outcome keeps every promise of a run and has its cause on record, with a journal file that works it is determined by the renames that fail, and either way the next crash can be recovered from again |
| `Restart.SettleAll` | crates/renamewright-platform/src/recovery.rs:473-545 | Opening the journal anew for each step, every prepared step is settled or one that cannot be told is refused; the rest of the plan keeps its course |
| `Restart.SettleOnce` | crates/renamewright-platform/src/recovery.rs:487-545 | One step is settled and the longer journal is opened for the next |
| `Restart.ConcludeSettled` | crates/renamewright-platform/src/recovery.rs:568-645 | A settled journal leads to an outcome that the course of the run and the action allow, and that the renames determine if the journal file works; on a readable disk it is refused exactly while a source is seen twice |
| `Restart.ServingIsAimed` | crates/renamewright-platform/src/recovery.rs:568-645 | Whatever was settled before, only renames can hinder a journal file that works |
| `Restart.RemainsAreSound` | crates/renamewright-platform/src/journal.rs:860-894 | Whatever a crash leaves of a moment of a run has every invariant of the run again |
| `Restart.ResumedOrOver` | crates/renamewright-platform/src/journal.rs:329-356 | The journal of a run is resumed exactly unless the transaction is over: nothing was done, all of it, or all of it was taken back |
| `Restart.LargePlansAreTold` | crates/renamewright-platform/src/recovery.rs:763-835 | With 32 sources or more no source is ever found gone ahead of a lost completion |
| `Restart.SettlingGrowsLittle` | crates/renamewright-platform/src/journal.rs:896-1043 | A settled step adds at most 64 bytes to the file |
| `Ancestors.SubtreesAreContiguous` | crates/renamewright-platform/src/lib.rs:425-457 | Whatever sorts between a directory and its descendant is inside the directory |
| `Ancestors.NextConflicts` | crates/renamewright-platform/src/lib.rs:441-455 | Reporting the innermost directory is enough, because the outer ones have been reported |
| `Ancestors.AncestorConflictsLexical` | crates/renamewright-platform/src/lib.rs:425-457 | The scan with a stack reports exactly what comparing every source with every other reports |
| `Catalog.NamesCarryIds` | crates/renamewright-platform/src/ledger.rs:539-549 | An id goes into a journal name and comes back |
| `Catalog.BoundedJournalCandidates` | crates/renamewright-platform/src/ledger.rs:508-537 | Keeps exactly the greatest candidates, says whether any were dropped, and knows the latest id of all of them |
| `Catalog.SelectionIsUnique` | crates/renamewright-platform/src/ledger.rs:508-537 | Only one selection does: the order of the directory plays no part |
| `Discovery.UndosAreKept` | crates/renamewright-platform/src/ledger.rs:508-537 | Leaving out old journals never separates a transaction from its undo |
| `Discovery.Discover` | crates/renamewright-platform/src/ledger.rs:165-256 | The newest journals, each listed for what its bytes say within the byte limit; the latest plan id is the greatest one in the names of all journals, left out or not, and in the headers of those that were read |
| `Discovery.ItemsAreNumbered` | crates/renamewright-platform/src/ledger.rs:186-231 | The listed journals are numbered from 1, each under its name; an entry without a name is there exactly if some were left out; a journal that was not read offers nothing and is listed for the reason |
| `Discovery.ListJournals` | crates/renamewright-platform/src/ledger.rs:190-219 | Every journal is read as long as the byte limit lasts |
| `Discovery.WithdrawSuperseded` | crates/renamewright-platform/src/ledger.rs:232-245 | Exactly the listed transactions that another listed one undoes are no longer offered |
| `Discovery.OfferedIsNotUndone` | crates/renamewright-platform/src/ledger.rs:232-245 | A transaction that is offered for an undo is undone by no other listed one that still stands |
| `Discovery.OfferedUnlessUndoIsRead` | crates/renamewright-platform/src/ledger.rs:190-245 | A transaction whose own records show it as undoable is offered if and only if no journal was read within the byte limit whose header undoes that plan and whose records do not tell that it was taken back itself |
| `Discovery.SupersededIsRead` | crates/renamewright-platform/src/ledger.rs:232-245 | What stands against a listed transaction are exactly the undos of it that were read |
| `Discovery.FittingUndosCount` | crates/renamewright-platform/src/ledger.rs:190-245 | While the kept journals fit into the byte limit together, no transaction is offered that the header of one of them undoes and that stands |
| `Discovery.UnreadUndosDoNotCount` | crates/renamewright-platform/src/ledger.rs:203-219 | If what was read before leaves less than the length of the only undo that still stands, that is listed without what it undoes and the transaction is offered once more |
| `Discovery.ZerosHideTheUndo` | crates/renamewright-platform/src/ledger.rs:190-219 | At the 64 MiB that the program reads, one damaged file between any finished journal and any undo of it is enough for that |
| `Lineage.ExecutedUndosStand` | crates/renamewright-platform/src/undo.rs:273-367 | From the moment that the header of an undo is durable, whatever a crash leaves of its journal stands against the transaction that it undoes, unless it tells that the undo was taken back |
| `Lineage.ExecutedUndosWithdraw` | crates/renamewright-platform/src/ledger.rs:190-245 | While the kept journals fit into the byte limit, an executed undo has its transaction offered no more |
| `Lineage.FinishedRunsAreUndoable` | crates/renamewright-platform/src/ledger.rs:354-477 | The journal of an applied plan that has finished is discovered as undoable, under the id of the plan |
| `Ledger.ListsRecovery` | crates/renamewright-platform/src/ledger.rs:354-477 | Recovery is listed exactly for whole journals with an open end that name their directories and sources |
| `Ledger.ListsUndo` | crates/renamewright-platform/src/ledger.rs:354-477 | An undo is listed exactly for whole journals of finished transactions that can be reversed |
| `Ledger.ListsTheHeader` | crates/renamewright-platform/src/ledger.rs:354-387 | A journal is listed under the plan id, generation, number of sources and undone plan in its header, whatever lies behind that |
| `Ledger.ListsTheStatus` | crates/renamewright-platform/src/ledger.rs:354-506 | Damage is listed by its kind and its place, a whole journal by the status that replaying its records gives, with the step that asks for attention |
| `Ledger.RecoveryIsListed` | crates/renamewright-platform/src/journal.rs:210-292 | A journal listed as recoverable can be opened if and only if it is of the current version |
| `Ledger.UndoIsListed` | crates/renamewright-platform/src/undo.rs:159-198 | A transaction listed as undoable passes for an undo if and only if no two final names compare equal, and its journal opens if and only if it is of the current version |
| `Ledger.OlderJournalsAreListedInVain` | crates/renamewright-platform/src/journal.rs:254-276 | For every header there is a journal of the version before that is listed as recoverable and is not opened |
| `Discovery.StartUp` | crates/renamewright-application/src/lib.rs:1268-1296 | After starting up the next plan id is the first one above the names of the journals, kept or left out, and the headers of those that were read, or the one it was; it fails exactly if those use up the last id |
| `Catalog.PlanIds.Initialize` | crates/renamewright-application/src/lib.rs:1274-1296 | The next id is the first one above the ledger, or the one it was; it fails exactly if the ledger holds the last id |
| `Catalog.PlanIds.IssuePlanId` | crates/renamewright-application/src/lib.rs:2288-2297 | The next id is issued, and exceeds every id issued or discovered before |
| `Catalog.PlanIds.AllocateTransactionPlanId` | crates/renamewright-application/src/lib.rs:2870-2887 | An undo gets the first id above what the ledger holds by now, or the next one, and uses up no other |
| `Rules.ReplaceLiteralBounded` | crates/renamewright-core/src/rules.rs:511-536 | Returns the full left-to-right replacement exactly if that fits; stopping early never rejects a result that fits |
| `Rules.ReplacingByItself` | crates/renamewright-core/src/rules.rs:522-536 | Replacing a text by itself changes nothing |
| `Rules.ReplacingJoins` | crates/renamewright-core/src/rules.rs:511-536 | Splitting a text at the leftmost occurrences, none overlapping, and joining the pieces by the replacement is what replacing does |
| `Rules.EveryTextSplits` | crates/renamewright-core/src/rules.rs:511-536 | and every text can be split so |

## Left out

* The user interface, localisation, automation, JSON and CSV export, DTO conversion, presets, mutex poisoning: plumbing around the transaction.
* Windows: wide-character names in the journal (names are byte strings, as on Unix), handles, reparse points, reserved names, the identity-based ancestor scan, and lookups that ignore case (the tree is a map; case only enters through the comparison key).
* Paths: a native path is a byte string compared as such, where the source compares component by component; a path of the registry is a directory and a name, so the errors for paths without either cannot occur after normalisation.
* Real files: opening, creating, locking and rereading journal files, directory listing, metadata and canonicalisation; `Recovery.OpenJournal` starts from the bytes, and the check that a journal was not exchanged between inspection and writing is not part of the model.
* The payload cursor and the payload vectors of the codec, which the source moves along and appends to in place, are modelled on values: a reader returns the unread rest.
* CRC-32, Unicode case mapping and normalisation, lossy conversion and regular expressions: parameters.
* The bounded regular-expression replacement and the other rename rules: they are parameters of the plan.
* Outside interference during a run, hard links during recovery and undo, and renames lost by a power failure.
* Refreshing the ledger, which keeps the ids of its entries, and the read that a file may fail in the middle of: a journal is its bytes, or unreadable.
* A restarted machine counts no more of the journal as synced than the run before it had synced, which covers a program that dies as well as a power failure.
* The readiness that recovery shows before an action is chosen: `Recovery.RecoverTransaction` and `Recovery.ReconcilePreparedStep` are the actions themselves.
* Plan storage in the application: only the issuing of plan ids is modelled; `Outcomes.Apply` leaves out the plan lookup and the confirmation dialogs.
- Registry.SourceRegistry.AdmitPathsCount: ids and generations are only told apart below saturation of their 64-bit counters, which the contract says.
- Registry.SourceRegistry.RemoveSources: takes the ids as they are listed, where the source collects them in an ordered set first; a repeated id removes nothing more.
- Freeze.FreezeExecutionPlan: the schedule is built from the ids of the sorted entries, which are the ordered set of ids that the source keeps for it.
