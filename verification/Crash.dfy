/** The crash theorem in bytes: whatever prefix of the journal file a crash leaves, as long as it keeps
    the synced bytes, its whole frames explain the tree. */
module Crash {
  import opened Primitives
  import opened Execution
  import opened RecordCodec
  import opened Frames
  import opened Journal
  import opened Machine
  import opened Appender
  import opened Transaction
  import opened Executor

  /** What inspection makes of a surviving file. */
  ghost function SurvivingRecords(crc: Checksum, bytes: seq<u8>): seq<JournalRecord>
    requires Measured(Reader(crc))
  {
    RecordsOf(Inspected(Reader(crc), bytes).frames)
  }

  ghost predicate CrashSafe(crc: Checksum, run: Run, m: Moment)
    requires Measured(Reader(crc))
  {
    exists applied :: run.Reached(m.tree, applied) && BytesExplain(crc, run, m, applied)
  }

  ghost predicate BytesExplain(crc: Checksum, run: Run, m: Moment, applied: nat)
    requires Measured(Reader(crc))
  {
    forall cut :: m.syncedLength <= cut <= |m.file| ==>
      && Survivable(run.Steps(), SurvivingRecords(crc, m.file[..cut]), applied)
      && (Inspected(Reader(crc), m.file[..cut]).issue.Some? ==> Inspected(Reader(crc), m.file[..cut]).IsTornTail())
  }

  /** A file that holds its records is inspected exactly: all of them, and whether a torn frame follows. */
  lemma FaithfulInspects(crc: Checksum, version: u16, m: Moment)
    requires MIN_RESUMABLE_JOURNAL_SCHEMA_VERSION <= version <= JOURNAL_SCHEMA_VERSION
    requires Faithful(Writer(crc, version), m)
    ensures Measured(Reader(crc)) && SurvivingRecords(crc, m.file) == m.written
    ensures var r := Inspected(Reader(crc), m.file);
            && r.frames == FramesOf(m.written, version)
            && (r.issue.None? <==> m.torn == []) && (r.issue.Some? ==> r.IsTornTail())
  {
    var write := Writer(crc, version);
    assert HoldsItsRecords(write, m) by { assert Unsealed(FaithfulSeal, 0); }
    ReaderIsSound(crc);
    ResumableRecords(m.written, version);
    EncodingsRead(crc, m.written, version);
    var chunks, frames := Encodings(write, m.written), FramesOf(m.written, version);
    var next := [];
    if m.torn != [] {
      var record :| write(|m.written|, record).Success? && RecordCodec.Constructible(record) && m.torn < write(|m.written|, record).value;
      next := write(|m.written|, record).value;
      ResumableVersionsKeepAll(record, version);
      EncodingReads(crc, |m.written|, record, version, FirstOf(frames));
    }
    TornTailIsExact(Reader(crc), chunks, frames, next, m.torn);
  }

  /** What is left of a moment when only the first `cut` bytes of the file survive: the first `k` records
      and a torn rest. The tree is untouched, and no more bytes count as synced than before. */
  ghost function Remains(m: Moment, cut: nat, k: nat, rest: seq<u8>): Moment
    requires cut <= |m.file| && k <= |m.written|
  {
    m.(file := m.file[..cut], written := m.written[..k], torn := rest)
  }

  /** A cut behind the synced bytes of a faithful file leaves a faithful file. */
  lemma CutsAreFaithful(crc: Checksum, version: u16, m: Moment, cut: nat) returns (k: nat, rest: seq<u8>)
    requires MIN_RESUMABLE_JOURNAL_SCHEMA_VERSION <= version <= JOURNAL_SCHEMA_VERSION
    requires Faithful(Writer(crc, version), m) && m.syncedLength <= cut <= |m.file|
    ensures m.durable <= k <= |m.written| && Faithful(Writer(crc, version), Remains(m, cut, k, rest))
  {
    var write := Writer(crc, version);
    assert HoldsItsRecords(write, m) by { assert Unsealed(FaithfulSeal, 0); }
    ResumableRecords(m.written, version);
    EncodingsRead(crc, m.written, version);
    var chunks := Encodings(write, m.written);
    k, rest := CutChunks(chunks, m.torn, cut);
    EncodingsPrefix(write, m.written, m.durable);
    assert m.durable <= k;
    RemainsAreFaithful(write, m, cut, k, rest);
  }

  lemma RemainsAreFaithful(write: FrameWriter, m: Moment, cut: nat, k: nat, rest: seq<u8>)
    requires HoldsItsRecords(write, m) && cut <= |m.file| && m.durable <= k <= |m.written|
    requires m.file[..cut] == Concat(Encodings(write, m.written)[..k]) + rest
    requires if k < |m.written| then rest < write(k, m.written[k]).value else rest <= m.torn
    ensures Faithful(write, Remains(m, cut, k, rest))
  {
    EncodingsPrefix(write, m.written, k);
    if rest != [] {
      TornRestIsTorn(write, m, k, rest);
    }
    assert m.written[..k][..m.durable] == m.written[..m.durable];
    assert HoldsItsRecords(write, Remains(m, cut, k, rest));
  }

  lemma TornRestIsTorn(write: FrameWriter, m: Moment, k: nat, rest: seq<u8>)
    requires HoldsItsRecords(write, m) && k <= |m.written| && rest != []
    requires if k < |m.written| then rest < write(k, m.written[k]).value else rest <= m.torn
    ensures IsTornFrame(write, rest, k)
  {
    if k == |m.written| {
      var record :| write(k, record).Success? && RecordCodec.Constructible(record) && m.torn < write(k, record).value;
      assert rest < write(k, record).value;
    }
  }

  /** A cut through a faithful file leaves the whole frames of the first `k` records and a torn rest. */
  lemma SurvivorsArePrefix(crc: Checksum, version: u16, m: Moment, cut: nat) returns (k: nat)
    requires MIN_RESUMABLE_JOURNAL_SCHEMA_VERSION <= version <= JOURNAL_SCHEMA_VERSION
    requires Faithful(Writer(crc, version), m) && m.syncedLength <= cut <= |m.file|
    ensures Measured(Reader(crc)) && m.durable <= k <= |m.written|
    ensures SurvivingRecords(crc, m.file[..cut]) == m.written[..k]
    ensures var r := Inspected(Reader(crc), m.file[..cut]); r.issue.Some? ==> r.IsTornTail()
  {
    var rest;
    k, rest := CutsAreFaithful(crc, version, m, cut);
    FaithfulInspects(crc, version, Remains(m, cut, k, rest));
  }

  /** The crash bracket, at every moment of every run. */
  lemma CrashBracket(crc: Checksum, version: u16, run: Run, history: seq<Moment>, i: nat)
    requires MIN_RESUMABLE_JOURNAL_SCHEMA_VERSION <= version <= JOURNAL_SCHEMA_VERSION
    requires run.write == Writer(crc, version) && SafeHistory(run, history) && i < |history|
    ensures Measured(Reader(crc)) && CrashSafe(crc, run, history[i])
  {
    var m := history[i];
    ReaderIsSound(crc);
    assert SafeMoment(run, m);
    var applied :| run.Reached(m.tree, applied) && Safe(run.Steps(), m.written, m.durable, applied);
    forall cut | m.syncedLength <= cut <= |m.file|
      ensures Survivable(run.Steps(), SurvivingRecords(crc, m.file[..cut]), applied)
      ensures Inspected(Reader(crc), m.file[..cut]).issue.Some? ==> Inspected(Reader(crc), m.file[..cut]).IsTornTail()
    {
      var k := SurvivorsArePrefix(crc, version, m, cut);
    }
    assert BytesExplain(crc, run, m, applied);
  }
}
