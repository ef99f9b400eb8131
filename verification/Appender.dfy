/** The durable appender: what is in the journal file after any pattern of write and sync failures. */
module Appender {
  import opened Primitives
  import opened Execution
  import opened RecordCodec
  import opened Frames
  import opened Machine

  datatype JournalStorageErrorKind =
    | InvalidInitialRecord
    | HeaderAfterStart
    | RecordAfterTerminal
    | CodecFailed(codec: JournalCodecErrorKind)
    | WriteFailed(ioKind: nat)
    | SyncFailed(ioKind: nat)
    | WriterPoisoned
    | SequenceExhausted
    | ResumeTooLarge
    | ResumeCodec(resumeCodec: JournalCodecErrorKind)
    | ResumeProtocol(protocol: JournalReplayErrorKind)
    | ResumeVersion(version: u16)
    | ResumeTerminal

  datatype JournalStorageError = JournalStorageError(sequence: u64, kind: JournalStorageErrorKind)

  type AppendOutcome = Result<(), JournalStorageError>

  predicate IsTerminal(record: JournalRecord) {
    record.TransactionCompleted? || record.TransactionRolledBack?
  }

  predicate HasParentAuthority(record: JournalRecord) {
    record.TransactionStarted? && forall e :: e in record.entries ==> e.parentExecutionIdentity.Some?
  }

  /** Nothing follows a terminal record. */
  ghost predicate TerminalOnlyLast(records: seq<JournalRecord>) {
    forall i :: 0 <= i < |records| - 1 ==> !IsTerminal(records[i])
  }

  ghost predicate IsTornFrame(write: FrameWriter, torn: seq<u8>, sequence: nat) {
    exists record :: write(sequence, record).Success? && Constructible(record) && torn < write(sequence, record).value
  }

  /** The bytes of a moment are the frames of its records and at most one torn frame; the synced bytes
      are the frames of its durable records. */
  ghost predicate Faithful(write: FrameWriter, m: Moment) {
    forall x {:trigger Unsealed(FaithfulSeal, x)} :: Unsealed(FaithfulSeal, x) ==> HoldsItsRecords(write, m)
  }

  ghost predicate HoldsItsRecords(write: FrameWriter, m: Moment) {
    && FramesEncode(write, m.written)
    && (forall i :: 0 <= i < |m.written| ==> Constructible(m.written[i]))
    && m.file == FileOf(write, m.written) + m.torn
    && m.durable <= |m.written|
    && FramesEncode(write, m.written[..m.durable])
    && m.syncedLength == |FileOf(write, m.written[..m.durable])|
    && (m.torn != [] ==> IsTornFrame(write, m.torn, |m.written|))
  }

  lemma FaithIgnoresTree(write: FrameWriter, m: Moment, tree: Tree)
    requires Faithful(write, m)
    ensures Faithful(write, m.(tree := tree))
  {
    assert Unsealed(FaithfulSeal, 0);
  }

  /** A state in the middle of appending `record` to `was`: the frame written or torn, then perhaps synced. */
  ghost predicate MidAppend(write: FrameWriter, was: Moment, record: JournalRecord, m: Moment) {
    && Faithful(write, m)
    && m.tree == was.tree
    && (m.written == was.written || m.written == was.written + [record])
    && (m.durable == was.durable || m.durable == |m.written| == |was.written| + 1)
  }

  /** The history grew by such states only. */
  ghost predicate Extends(write: FrameWriter, was: Moment, record: JournalRecord, h: seq<Moment>, h': seq<Moment>) {
    && h <= h'
    && forall i :: |h| <= i < |h'| ==> MidAppend(write, was, record, h'[i])
  }

  lemma ExtendsMore(write: FrameWriter, was: Moment, record: JournalRecord, h: seq<Moment>, h': seq<Moment>, m: Moment)
    requires Extends(write, was, record, h, h') && MidAppend(write, was, record, m)
    ensures Extends(write, was, record, h, h' + [m])
  {
  }

  /** The record is in the file as its last whole frame, and synced if that was asked for. */
  ghost predicate Landed(was: Moment, now: Moment, record: JournalRecord, synchronize: bool) {
    && now.written == was.written + [record]
    && now.torn == []
    && now.durable == if synchronize then |now.written| else was.durable
  }

  /** What the world has in store for a run, and how its writer encodes. */
  datatype Fates = Fates(renames: nat -> RenameFault, writes: nat -> WriteFault, syncs: nat -> Option<nat>, write: FrameWriter,
                         version: u16)

  /** How much of that is behind it, and the sequence number that comes next. */
  datatype Spent = Spent(renames: nat, writes: nat, syncs: nat, sequence: u64)

  /** A new writer has all that is still ahead of its disk. */
  function FatesOf(disk: Machine, write: FrameWriter): Fates {
    Fates(disk.renameFaults, disk.writeFaults, disk.syncFaults, write, JOURNAL_SCHEMA_VERSION)
  }

  function SpentOn(disk: Machine): Spent
    reads disk
  {
    Spent(disk.renames, disk.writes, disk.syncs, 0)
  }

  /** What becomes of one more record of a writer that is neither poisoned nor at its end. */
  function Entered(fates: Fates, spent: Spent, record: JournalRecord, synchronize: bool): Result<Spent, JournalStorageErrorKind> {
    if spent.sequence == U64_MAX then Failure(SequenceExhausted)
    else match fates.write(spent.sequence, record)
      case Failure(kind) => Failure(CodecFailed(kind))
      case Success(_) =>
        match fates.writes(spent.writes)
        case Cut(ioKind, _) => Failure(WriteFailed(ioKind))
        case Whole =>
          var written := spent.(writes := spent.writes + 1, sequence := spent.sequence + 1);
          if !synchronize then Success(written)
          else match fates.syncs(spent.syncs)
            case Some(ioKind) => Failure(SyncFailed(ioKind))
            case None => Success(written.(syncs := spent.syncs + 1))
  }

  /** The record went the way that the world had in store for it. */
  predicate IsEntered(fates: Fates, was: Spent, now: Spent, record: JournalRecord, synchronize: bool, r: Result<(), JournalStorageErrorKind>) {
    && now.renames == was.renames
    && match Entered(fates, was, record, synchronize)
       case Success(spent) => r.Success? && now == spent
       case Failure(kind) => r == Failure(kind)
  }

  function KindOf(r: AppendOutcome): Result<(), JournalStorageErrorKind> {
    if r.Success? then Success(()) else Failure(r.error.kind)
  }

  class DurableAppender {
    const write: FrameWriter
    const sink: Machine
    const schemaVersion: u16
    var nextSequence: u64
    var terminal: bool
    var poisoned: bool

    ghost predicate Valid()
      reads this, sink
      ensures Valid() ==> sink.durable <= nextSequence <= |sink.written| && Faithful(write, sink.Now())
      ensures Valid() && !poisoned ==> |sink.written| == nextSequence && sink.torn == []
    {
      var sealed := forall x {:trigger Unsealed(ValidSeal, x)} :: Unsealed(ValidSeal, x) ==> Intact();
      assert sealed ==> Intact() by { assert Unsealed(ValidSeal, 0); }
      sealed
    }

    ghost predicate Intact()
      reads this, sink
    {
      && Faithful(write, sink.Now())
      && sink.durable <= nextSequence <= |sink.written| <= nextSequence + 1
      && (!poisoned ==> sink.torn == [] && |sink.written| == nextSequence)
      && (terminal <==> nextSequence > 0 && IsTerminal(sink.written[nextSequence - 1]))
      && TerminalOnlyLast(sink.written)
    }

    /** The records that were appended successfully. */
    ghost function Accepted(): seq<JournalRecord>
      requires Valid()
      reads this, sink
    {
      sink.written[..nextSequence]
    }

    function Ahead(): Fates {
      Fates(sink.renameFaults, sink.writeFaults, sink.syncFaults, write, schemaVersion)
    }

    function Behind(): Spent
      reads this, sink
    {
      Spent(sink.renames, sink.writes, sink.syncs, nextSequence)
    }

    /** It is neither poisoned nor at its end. */
    predicate Live()
      reads this
    {
      !poisoned && !terminal
    }

    /** Only a fault can keep such a record out of the journal. */
    predicate Encodable(record: JournalRecord)
      reads this
    {
      nextSequence < U64_MAX && write(nextSequence, record).Success?
    }

    function NextFrame(record: JournalRecord): Result<seq<u8>, JournalStorageErrorKind>
      reads this
    {
      if nextSequence == U64_MAX then Failure(SequenceExhausted)
      else match write(nextSequence, record)
        case Success(frame) => Success(frame)
        case Failure(kind) => Failure(CodecFailed(kind))
    }

    predicate Ready(record: JournalRecord)
      reads this
    {
      ValidateAppend(record).Success? && Encodable(record)
    }

    constructor (write: FrameWriter, sink: Machine)
      requires sink.Now() == Moment(sink.tree, [], 0, [], 0, [])
      ensures Valid() && this.write == write && this.sink == sink && schemaVersion == JOURNAL_SCHEMA_VERSION
      ensures nextSequence == 0 && !terminal && !poisoned && Accepted() == []
    {
      this.write, this.sink, schemaVersion := write, sink, JOURNAL_SCHEMA_VERSION;
      nextSequence, terminal, poisoned := 0, false, false;
    }

    constructor Resume(write: FrameWriter, sink: Machine, nextSequence: u64, schemaVersion: u16)
      requires Faithful(write, sink.Now()) && sink.torn == [] && |sink.written| == nextSequence
      requires forall r :: r in sink.written ==> !IsTerminal(r)
      ensures Valid() && this.write == write && this.sink == sink && this.schemaVersion == schemaVersion
      ensures !terminal && !poisoned && Accepted() == sink.written
    {
      this.write, this.sink, this.schemaVersion := write, sink, schemaVersion;
      this.nextSequence, terminal, poisoned := nextSequence, false, false;
      new;
      assert Unsealed(FaithfulSeal, 0);
      assert forall i :: 0 <= i < |sink.written| ==> sink.written[i] in sink.written;
    }

    /** Writes a frame; afterwards the file holds one more whole or torn frame. */
    method WriteOne(frame: seq<u8>, ghost record: JournalRecord) returns (r: Result<(), nat>)
      requires Valid() && !poisoned && !terminal && Constructible(record)
      requires write(nextSequence, record) == Success(frame)
      modifies sink`file, sink`writes, sink`written, sink`torn, sink`history
      ensures Faithful(write, sink.Now()) && TerminalOnlyLast(sink.written)
      ensures sink.history == old(sink.history) + [sink.Now()]
      ensures sink.written == old(sink.written) + [record] || (r.Failure? && sink.written == old(sink.written))
      ensures r.Success? ==> sink.torn == []
      ensures var fault := sink.writeFaults(old(sink.writes)); r == if fault.Cut? then Failure(fault.ioKind) else Success(())
      ensures sink.writes == old(sink.writes) + 1
    {
      assert Unsealed(ValidSeal, 0);
      ghost var before := sink.Now();
      r := sink.WriteFrame(frame, record);
      FrameKeepsFaith(write, before, sink.Now(), record);
    }

    method SyncOne() returns (r: Result<(), nat>)
      requires Faithful(write, sink.Now()) && sink.torn == []
      modifies sink`syncedLength, sink`syncs, sink`durable, sink`history
      ensures Faithful(write, sink.Now())
      ensures sink.history == old(sink.history) + [sink.Now()]
      ensures sink.durable == if r.Success? then |sink.written| else old(sink.durable)
      ensures var fault := sink.syncFaults(old(sink.syncs)); r == if fault.Some? then Failure(fault.value) else Success(())
      ensures sink.syncs == old(sink.syncs) + 1
    {
      assert Unsealed(FaithfulSeal, 0);
      r := sink.SyncAll();
      assert sink.written[..|sink.written|] == sink.written;
      ghost var whole := FileOf(write, sink.written);
      assert whole + [] == whole;
    }

    /** The frame in the file and, if asked for, synced: a failure of either poisons the writer. */
    method Persist(frame: seq<u8>, ghost record: JournalRecord, synchronize: bool) returns (r: Result<(), JournalStorageErrorKind>)
      requires Valid() && !poisoned && !terminal && Constructible(record)
      requires write(nextSequence, record) == Success(frame)
      modifies sink`file, sink`writes, sink`written, sink`torn, sink`syncedLength, sink`syncs, sink`durable, sink`history
      ensures Faithful(write, sink.Now()) && TerminalOnlyLast(sink.written)
      ensures Extends(write, old(sink.Now()), record, old(sink.history), sink.history)
      ensures MidAppend(write, old(sink.Now()), record, sink.Now())
      ensures sink.written == old(sink.written) + [record] || (r.Failure? && sink.written == old(sink.written))
      ensures r.Success? ==> sink.torn == [] && sink.durable == if synchronize then |sink.written| else old(sink.durable)
      ensures r.Failure? ==> sink.durable == old(sink.durable)
      ensures r.Failure? ==> r.error.WriteFailed? || (r.error.SyncFailed? && sink.written == old(sink.written) + [record])
      ensures r.Failure? && r.error.WriteFailed? <==> sink.writeFaults(old(sink.writes)).Cut?
      ensures r.Failure? && r.error.WriteFailed? ==> r.error.ioKind == sink.writeFaults(old(sink.writes)).ioKind
      ensures r.Failure? && r.error.SyncFailed? ==> synchronize && sink.syncFaults(old(sink.syncs)) == Some(r.error.ioKind)
      ensures r.Success? ==> sink.writes == old(sink.writes) + 1
      ensures r.Success? ==> if synchronize then sink.syncFaults(old(sink.syncs)).None? && sink.syncs == old(sink.syncs) + 1
                             else sink.syncs == old(sink.syncs)
    {
      assert Intact() by { assert Unsealed(ValidSeal, 0); }
      ghost var was, h := sink.Now(), sink.history;
      var wrote := WriteOne(frame, record);
      ExtendsMore(write, was, record, h, h, sink.Now());
      if wrote.Failure? {
        return Failure(WriteFailed(wrote.error));
      }
      if synchronize {
        ghost var h' := sink.history;
        var synced := SyncOne();
        ExtendsMore(write, was, record, h, h', sink.Now());
        if synced.Failure? {
          return Failure(SyncFailed(synced.error));
        }
      }
      return Success(());
    }

    method AppendRecord(record: JournalRecord, synchronize: bool) returns (r: AppendOutcome)
      requires Valid() && !poisoned && !terminal && Constructible(record)
      modifies this, sink
      ensures Valid() && sink.tree == old(sink.tree)
      ensures r.Success? ==> Landed(old(sink.Now()), sink.Now(), record, synchronize) && Accepted() == sink.written && !poisoned
      ensures r.Success? ==> (terminal <==> IsTerminal(record))
      ensures r.Failure? ==> Accepted() == old(Accepted()) && sink.durable == old(sink.durable)
      ensures r.Failure? ==> (poisoned <==> r.error.kind.WriteFailed? || r.error.kind.SyncFailed?)
      ensures r.Failure? && !poisoned ==> sink.Now() == old(sink.Now())
      ensures Extends(write, old(sink.Now()), record, old(sink.history), sink.history)
      ensures MidAppend(write, old(sink.Now()), record, sink.Now())
      ensures IsEntered(Ahead(), old(Behind()), Behind(), record, synchronize, KindOf(r))
      ensures r.Failure? ==> r.error.sequence == old(nextSequence)
    {
      var frame := NextFrame(record);
      if frame.Failure? {
        return Failure(JournalStorageError(nextSequence, frame.error));
      }
      assert Unsealed(ValidSeal, 0);
      var persisted := Persist(frame.value, record, synchronize);
      if persisted.Failure? {
        poisoned := true;
        return Failure(JournalStorageError(nextSequence, persisted.error));
      }
      nextSequence := nextSequence + 1;
      terminal := IsTerminal(record);
      return Success(());
    }

    function ValidateAppend(record: JournalRecord): AppendOutcome
      reads this
    {
      if poisoned then Failure(JournalStorageError(nextSequence, WriterPoisoned))
      else if record.TransactionStarted? then Failure(JournalStorageError(nextSequence, HeaderAfterStart))
      else if terminal then Failure(JournalStorageError(nextSequence, JournalStorageErrorKind.RecordAfterTerminal))
      else Success(())
    }

    method AppendInitial(record: JournalRecord) returns (r: AppendOutcome)
      requires Valid() && !poisoned && !terminal && Constructible(record)
      modifies this, sink
      ensures Valid() && sink.tree == old(sink.tree)
      ensures r.Success? ==> Landed(old(sink.Now()), sink.Now(), record, true) && Accepted() == sink.written && !poisoned
      ensures r.Success? ==> (terminal <==> IsTerminal(record))
      ensures r.Success? ==> HasParentAuthority(record)
      ensures r.Failure? ==> Accepted() == old(Accepted()) && sink.durable == old(sink.durable)
      ensures Extends(write, old(sink.Now()), record, old(sink.history), sink.history)
      ensures MidAppend(write, old(sink.Now()), record, sink.Now())
      ensures if HasParentAuthority(record) then IsEntered(Ahead(), old(Behind()), Behind(), record, true, KindOf(r))
              else r == Failure(JournalStorageError(old(nextSequence), InvalidInitialRecord)) && Behind() == old(Behind())
    {
      if !HasParentAuthority(record) {
        return Failure(JournalStorageError(nextSequence, InvalidInitialRecord));
      }
      r := AppendRecord(record, true);
    }

    /** Nothing follows a poisoned write or a terminal record; a success makes every earlier record durable. */
    method Append(record: JournalRecord) returns (r: AppendOutcome)
      requires Valid() && Constructible(record)
      modifies this, sink
      ensures Valid() && sink.tree == old(sink.tree)
      ensures r.Success? ==> Landed(old(sink.Now()), sink.Now(), record, true) && Accepted() == sink.written && !poisoned
      ensures r.Success? ==> (terminal <==> IsTerminal(record))
      ensures r.Failure? ==> Accepted() == old(Accepted()) && sink.durable == old(sink.durable)
      ensures old(ValidateAppend(record)).Failure? ==>
                r == old(ValidateAppend(record)) && sink.Now() == old(sink.Now()) && sink.history == old(sink.history)
      ensures old(poisoned) ==> r == Failure(JournalStorageError(old(nextSequence), WriterPoisoned))
      ensures !old(poisoned) && record.TransactionStarted? ==> r == Failure(JournalStorageError(old(nextSequence), HeaderAfterStart))
      ensures !old(poisoned) && old(terminal) && !record.TransactionStarted? ==>
                r == Failure(JournalStorageError(old(nextSequence), JournalStorageErrorKind.RecordAfterTerminal))
      ensures Extends(write, old(sink.Now()), record, old(sink.history), sink.history)
      ensures MidAppend(write, old(sink.Now()), record, sink.Now())
      ensures old(ValidateAppend(record)).Success? ==> IsEntered(Ahead(), old(Behind()), Behind(), record, true, KindOf(r))
      ensures sink.renames == old(sink.renames)
    {
      r := ValidateAppend(record);
      if r.Success? {
        r := AppendRecord(record, true);
      }
    }

    /** Completions need no sync of their own: the step was announced durably before it was taken. */
    method AppendBufferedCompletion(record: JournalRecord) returns (r: AppendOutcome)
      requires Valid() && Constructible(record)
      modifies this, sink
      ensures Valid() && sink.tree == old(sink.tree)
      ensures var buffered := record.ForwardStepCompleted? || record.RollbackStepCompleted?;
              r.Success? ==> Landed(old(sink.Now()), sink.Now(), record, !buffered) && Accepted() == sink.written && !poisoned
      ensures r.Success? ==> (terminal <==> IsTerminal(record))
      ensures r.Failure? ==> Accepted() == old(Accepted()) && sink.durable == old(sink.durable)
      ensures old(ValidateAppend(record)).Failure? ==>
                r == old(ValidateAppend(record)) && sink.Now() == old(sink.Now()) && sink.history == old(sink.history)
      ensures old(poisoned) ==> r == Failure(JournalStorageError(old(nextSequence), WriterPoisoned))
      ensures !old(poisoned) && record.TransactionStarted? ==> r == Failure(JournalStorageError(old(nextSequence), HeaderAfterStart))
      ensures !old(poisoned) && old(terminal) && !record.TransactionStarted? ==>
                r == Failure(JournalStorageError(old(nextSequence), JournalStorageErrorKind.RecordAfterTerminal))
      ensures Extends(write, old(sink.Now()), record, old(sink.history), sink.history)
      ensures MidAppend(write, old(sink.Now()), record, sink.Now())
      ensures var buffered := record.ForwardStepCompleted? || record.RollbackStepCompleted?;
              old(ValidateAppend(record)).Success? ==> IsEntered(Ahead(), old(Behind()), Behind(), record, !buffered, KindOf(r))
      ensures sink.renames == old(sink.renames)
    {
      if !(record.ForwardStepCompleted? || record.RollbackStepCompleted?) {
        r := Append(record);
        return;
      }
      r := ValidateAppend(record);
      if r.Success? {
        r := AppendRecord(record, false);
      }
    }
  }

  /** One more frame, whole or torn, keeps the file faithful. */
  lemma FrameKeepsFaith(write: FrameWriter, m: Moment, m': Moment, record: JournalRecord)
    requires Faithful(write, m) && m.torn == []
    requires write(|m.written|, record).Success? && Constructible(record)
    requires m'.durable == m.durable && m'.syncedLength == m.syncedLength
    requires var frame := write(|m.written|, record).value;
             || (m'.file == m.file + frame && m'.written == m.written + [record] && m'.torn == [])
             || (m'.file == m.file + m'.torn && m'.torn < frame && m'.written == m.written)
    ensures Faithful(write, m')
  {
    assert Unsealed(FaithfulSeal, 0);
    FileAppend(write, m.written, record);
    assert m'.written[..m.durable] == m.written[..m.durable];
    var chunks := FileOf(write, m.written);
    assert chunks + [] == chunks;
    if m'.written == m.written {
      if m'.torn != [] {
        assert IsTornFrame(write, m'.torn, |m.written|);
      }
    } else {
      assert m'.file + [] == m'.file;
    }
  }
}
