/** Decoding accepts nothing but what encoding writes: the converse of the round trips. */
module Canonical {
  import opened Primitives
  import opened LittleEndian
  import opened Execution
  import opened RecordCodec
  import opened Frames
  import opened Journal
  import opened Integrity

  // ---------------------------------------------------------------- numbers

  lemma {:induction false} DigitsOf(s: seq<u8>, i: nat)
    requires i < |s|
    ensures LittleEndian.Digit(GetLE(s), i) == s[i]
    decreases i
  {
    LeastFirst(s);
    if i > 0 {
      assert GetLE(s) / 256 == GetLE(s[1..]);
      DigitsOf(s[1..], i - 1);
    }
  }

  lemma PutGet(s: seq<u8>)
    ensures PutLE(GetLE(s), |s|) == s
  {
    forall i | 0 <= i < |s| ensures PutLE(GetLE(s), |s|)[i] == s[i] {
      DigitsOf(s, i);
    }
  }

  lemma WroteU64(s: seq<u8>)
    requires ReadU64(s).Success?
    ensures var (v, rest) := ReadU64(s).value; s == PutLE(v, 8) + rest
  {
    PutGet(s[..8]);
  }

  lemma WroteU32(s: seq<u8>)
    requires ReadU32(s).Success?
    ensures var (v, rest) := ReadU32(s).value; s == PutLE(v, 4) + rest
  {
    PutGet(s[..4]);
  }

  lemma WroteU128(s: seq<u8>)
    requires ReadU128(s).Success?
    ensures var (v, rest) := ReadU128(s).value; s == PutLE(v, 16) + rest
  {
    PutGet(s[..16]);
  }

  lemma WroteU8(s: seq<u8>)
    requires ReadU8(s).Success?
    ensures var (v, rest) := ReadU8(s).value; s == [v] + rest
  {
  }

  lemma Regroup(s: seq<u8>, a: seq<u8>, r: seq<u8>, b: seq<u8>, rest: seq<u8>)
    requires s == a + r && r == b + rest
    ensures s == (a + b) + rest
  {
  }

  // ---------------------------------------------------------------- fields

  lemma WroteName(s: seq<u8>)
    requires DecodeName(s).Success?
    ensures var (name, rest) := DecodeName(s).value; s == NameBytes(name) + rest && |name| <= U32_MAX
  {
    var (tag, r1) := ReadU8(s).value;
    WroteU8(s);
    var (length, r2) := ReadU32(r1).value;
    WroteU32(r1);
    var (name, rest) := DecodeName(s).value;
    assert r2 == name + rest && length == |name|;
    Regroup(r1, PutLE(length, 4), r2, name, rest);
    Regroup(s, [tag], r1, PutLE(length, 4) + name, rest);
  }

  lemma WroteIdentity(s: seq<u8>)
    requires DecodeIdentity(s).Success?
    ensures var (identity, rest) := DecodeIdentity(s).value; s == IdentityBytes(identity) + rest
  {
    WroteU64(s);
    var (volume, r1) := ReadU64(s).value;
    var (identity, rest) := DecodeIdentity(s).value;
    assert r1 == identity.fileId + rest;
    Regroup(s, PutLE(volume, 8), r1, identity.fileId, rest);
  }

  lemma WroteSignal(s: seq<u8>)
    requires DecodeSignal(s).Success?
    ensures var (signal, rest) := DecodeSignal(s).value; s == SignalBytes(signal) + rest
  {
    var (tag, r1) := ReadU8(s).value;
    WroteU8(s);
    if tag == 1 {
      var (primary, r2) := ReadU64(r1).value;
      WroteU64(r1);
      var (secondary, r3) := ReadU64(r2).value;
      WroteU64(r2);
      Regroup(r1, PutLE(primary, 8), r2, PutLE(secondary, 8), r3);
      Regroup(s, [tag], r1, PutLE(primary, 8) + PutLE(secondary, 8), r3);
    }
  }

  lemma WroteModified(s: seq<u8>)
    requires DecodeModified(s).Success?
    ensures var (modified, rest) := DecodeModified(s).value; s == ModifiedBytes(modified) + rest
  {
    var (tag, r1) := ReadU8(s).value;
    WroteU8(s);
    if tag == 1 {
      var (nanos, r2) := ReadU128(r1).value;
      WroteU128(r1);
      Regroup(s, [tag], r1, PutLE(nanos, 16), r2);
    }
  }

  lemma WroteFingerprint(s: seq<u8>, version: u16)
    requires DecodeFingerprint(s, version).Success?
    ensures var (fingerprint, rest) := DecodeFingerprint(s, version).value; s == FingerprintBytes(fingerprint) + rest && (version < 4 ==> fingerprint.entryKind != Directory)
  {
    var (kind, r1) := DecodeKind(s, version).value;
    WroteU8(s);
    assert s == [KindByte(kind)] + r1;
    var (signal, r2) := DecodeSignal(r1).value;
    WroteSignal(r1);
    var (byteLen, r3) := ReadU64(r2).value;
    WroteU64(r2);
    var (modified, r4) := DecodeModified(r3).value;
    WroteModified(r3);
    Regroup(r2, PutLE(byteLen, 8), r3, ModifiedBytes(modified), r4);
    Regroup(r1, SignalBytes(signal), r2, PutLE(byteLen, 8) + ModifiedBytes(modified), r4);
    Regroup(s, [KindByte(kind)], r1, SignalBytes(signal) + (PutLE(byteLen, 8) + ModifiedBytes(modified)), r4);
  }

  lemma WroteParent(s: seq<u8>, version: u16)
    requires DecodeParent(s, version).Success?
    ensures var (parent, rest) := DecodeParent(s, version).value;
            s == ParentBytes(parent, version) + rest && (parent.Some? ==> |parent.value| <= U32_MAX) && (version < 2 ==> parent.None?)
  {
    if version >= 2 {
      var (tag, r1) := ReadU8(s).value;
      WroteU8(s);
      if tag == 1 {
        var (path, r2) := DecodeName(r1).value;
        WroteName(r1);
        Regroup(s, [tag], r1, NameBytes(path), r2);
      }
    }
  }

  lemma WroteUndo(s: seq<u8>, version: u16)
    requires DecodeUndo(s, version).Success?
    ensures var (undo, rest) := DecodeUndo(s, version).value; s == UndoBytes(undo, version) + rest && (version < 3 ==> undo.None?)
  {
    if version >= 3 {
      var (tag, r1) := ReadU8(s).value;
      WroteU8(s);
      if tag == 1 {
        var (planId, r2) := ReadU64(r1).value;
        WroteU64(r1);
        Regroup(s, [tag], r1, PutLE(planId, 8), r2);
      }
    }
  }

  lemma WroteParentIdentity(s: seq<u8>, version: u16)
    requires DecodeParentIdentity(s, version).Success?
    ensures var (identity, rest) := DecodeParentIdentity(s, version).value; s == ParentIdentityBytes(identity, version) + rest && (version < 5 ==> identity.None?)
  {
    if version >= 5 {
      var (tag, r1) := ReadU8(s).value;
      WroteU8(s);
      if tag == 1 {
        var (identity, r2) := DecodeIdentity(r1).value;
        WroteIdentity(r1);
        Regroup(s, [tag], r1, IdentityBytes(identity), r2);
      }
    }
  }

  lemma WroteNames(s: seq<u8>)
    requires DecodeNames(s).Success?
    ensures var (names, rest) := DecodeNames(s).value;
            && s == NamesBytes(names) + rest
            && |names.originalName| <= U32_MAX && |names.temporaryName| <= U32_MAX && |names.finalName| <= U32_MAX
  {
    var (original, r1) := DecodeName(s).value;
    WroteName(s);
    var (temporary, r2) := DecodeName(r1).value;
    WroteName(r1);
    var (final, r3) := DecodeName(r2).value;
    WroteName(r2);
    Regroup(r1, NameBytes(temporary), r2, NameBytes(final), r3);
    Regroup(s, NameBytes(original), r1, NameBytes(temporary) + NameBytes(final), r3);
  }

  /** The bytes of the last fields of an entry, whatever they are. */
  function TailBytes(tail: EntryTail, version: u16): seq<u8> {
    IdentityBytes(tail.identity)
    + (ParentBytes(tail.parent, version) + (UndoBytes(tail.undo, version) + ParentIdentityBytes(tail.parentIdentity, version)))
  }

  lemma WroteEntryTail(s: seq<u8>, version: u16)
    requires DecodeEntryTail(s, version).Success?
    ensures var (tail, rest) := DecodeEntryTail(s, version).value;
            && s == TailBytes(tail, version) + rest
            && (tail.parent.Some? ==> |tail.parent.value| <= U32_MAX)
            && (version < 2 ==> tail.parent.None?) && (version < 3 ==> tail.undo.None?) && (version < 5 ==> tail.parentIdentity.None?)
  {
    var (identity, r1) := DecodeIdentity(s).value;
    WroteIdentity(s);
    var (parent, r2) := DecodeParent(r1, version).value;
    WroteParent(r1, version);
    var (undo, r3) := DecodeUndo(r2, version).value;
    WroteUndo(r2, version);
    var (parentIdentity, r4) := DecodeParentIdentity(r3, version).value;
    WroteParentIdentity(r3, version);
    var p, u, i := ParentBytes(parent, version), UndoBytes(undo, version), ParentIdentityBytes(parentIdentity, version);
    Regroup(r2, u, r3, i, r4);
    Regroup(r1, p, r2, u + i, r4);
    Regroup(s, IdentityBytes(identity), r1, p + (u + i), r4);
  }

  // ---------------------------------------------------------------- records

  /** Reading `w` at this version gives `e`. */
  predicate Spells(w: JournalEntry, e: JournalEntry, version: u16) {
    KindReadable(w, version) && EraseEntry(PlacedEntry(w), version) == e
  }

  lemma WroteEntry(s: seq<u8>, version: u16) returns (w: JournalEntry)
    requires DecodeEntry(s, version).Success?
    ensures var (e, rest) := DecodeEntry(s, version).value;
            && EncodeEntry(w, version) == Success(EntryBytes(w, version)) && s == EntryBytes(w, version) + rest
            && Spells(w, e, version) && (w == e || (version >= 5 && e.nativeParent.None?))
  {
    var (sourceId, r1) := ReadU64(s).value;
    WroteU64(s);
    var (parentId, r2) := ReadU64(r1).value;
    WroteU64(r1);
    var (names, r3) := DecodeNames(r2).value;
    WroteNames(r2);
    var (fingerprint, r4) := DecodeFingerprint(r3, version).value;
    WroteFingerprint(r3, version);
    var (tail, r5) := DecodeEntryTail(r4, version).value;
    WroteEntryTail(r4, version);
    var e := DecodeEntry(s, version).value.0;
    w := e.(parentExecutionIdentity := tail.parentIdentity);
    var n, f, t := NamesBytes(names), FingerprintBytes(fingerprint), TailBytes(tail, version);
    assert EntryTailBytes(w, version) == t;
    Regroup(r3, f, r4, t, r5);
    Regroup(r2, n, r3, f + t, r5);
    Regroup(r1, PutLE(parentId, 8), r2, n + (f + t), r5);
    Regroup(s, PutLE(sourceId, 8), r1, PutLE(parentId, 8) + (n + (f + t)), r5);
  }

  predicate SpellAll(ws: seq<JournalEntry>, entries: seq<JournalEntry>, version: u16) {
    |ws| == |entries| && forall i :: 0 <= i < |ws| ==> Spells(ws[i], entries[i], version)
  }

  lemma SpellsOneMore(w: JournalEntry, ws: seq<JournalEntry>, entries: seq<JournalEntry>, version: u16)
    requires entries != [] && Spells(w, entries[0], version) && SpellAll(ws, entries[1..], version)
    ensures SpellAll([w] + ws, entries, version)
  {
  }

  lemma EncodesOneMore(first: JournalEntry, others: seq<JournalEntry>, version: u16)
    requires EncodeEntry(first, version) == Success(EntryBytes(first, version)) && EncodeEntries(others, version).Success?
    ensures EncodeEntries([first] + others, version) == Success(EntryBytes(first, version) + EncodeEntries(others, version).value)
  {
    assert ([first] + others)[1..] == others;
  }

  ghost predicate ReadsAs(s: seq<u8>, count: nat, version: u16, entries: seq<JournalEntry>, rest: seq<u8>) {
    forall x {:trigger UnsealedAt(FrameSeal, s, x)} :: UnsealedAt(FrameSeal, s, x) ==>
      DecodeEntries(s, count, version) == Success((entries, rest))
  }

  /** The bytes are those of one entry, and then the rest. */
  ghost predicate IsWritten(s: seq<u8>, e: JournalEntry, rest: seq<u8>, version: u16) {
    forall x {:trigger UnsealedAt(EndSeal, e, x)} :: UnsealedAt(EndSeal, e, x) ==>
      EncodeEntry(e, version) == Success(EntryBytes(e, version)) && s == EntryBytes(e, version) + rest
  }

  /** The first entry of several. */
  lemma TakesOneEntry(s: seq<u8>, count: nat, version: u16, entries: seq<JournalEntry>, rest: seq<u8>)
    returns (w: JournalEntry, r1: seq<u8>, others: seq<JournalEntry>)
    requires count > 0 && ReadsAs(s, count, version, entries, rest)
    ensures entries != [] && others == entries[1..] && ReadsAs(r1, count - 1, version, others, rest)
    ensures IsWritten(s, w, r1, version) && Spells(w, entries[0], version)
  {
    assert UnsealedAt(FrameSeal, s, 0);
    r1 := DecodeEntry(s, version).value.1;
    others := DecodeEntries(r1, count - 1, version).value.0;
    w := WroteEntry(s, version);
  }

  /** The bytes are those of the entries, and then the rest. */
  ghost predicate AreWritten(s: seq<u8>, entries: seq<JournalEntry>, rest: seq<u8>, version: u16) {
    forall x {:trigger UnsealedAt(TurnSeal, entries, x)} :: UnsealedAt(TurnSeal, entries, x) ==>
      EncodeEntries(entries, version).Success? && s == EncodeEntries(entries, version).value + rest
  }

  lemma OneMoreIsWritten(s: seq<u8>, first: JournalEntry, r1: seq<u8>, others: seq<JournalEntry>, rest: seq<u8>, version: u16)
    requires IsWritten(s, first, r1, version)
    requires AreWritten(r1, others, rest, version)
    ensures AreWritten(s, [first] + others, rest, version)
  {
    assert UnsealedAt(TurnSeal, others, 0) && UnsealedAt(EndSeal, first, 0);
    EncodesOneMore(first, others, version);
    Regroup(s, EntryBytes(first, version), r1, EncodeEntries(others, version).value, rest);
  }

  lemma NoneAreWritten(s: seq<u8>, version: u16, entries: seq<JournalEntry>, rest: seq<u8>)
    requires ReadsAs(s, 0, version, entries, rest)
    ensures entries == [] && AreWritten(s, entries, rest, version)
  {
    assert UnsealedAt(FrameSeal, s, 0);
  }

  lemma {:induction false} WroteEntries(s: seq<u8>, count: nat, version: u16, entries: seq<JournalEntry>, rest: seq<u8>)
    returns (ws: seq<JournalEntry>)
    requires ReadsAs(s, count, version, entries, rest)
    ensures AreWritten(s, ws, rest, version) && SpellAll(ws, entries, version)
    decreases count
  {
    if count == 0 {
      NoneAreWritten(s, version, entries, rest);
      ws := [];
    } else {
      var first, r1, others := TakesOneEntry(s, count, version, entries, rest);
      var further := WroteEntries(r1, count - 1, version, others, rest);
      OneMoreIsWritten(s, first, r1, further, rest, version);
      ws := [first] + further;
      SpellsOneMore(first, further, entries, version);
    }
  }

  /** Reading `w` at this version gives the record. */
  predicate IsSpelling(w: JournalRecord, record: JournalRecord, version: u16) {
    Readable(w, version) && Erase(Placed(w), version) == record
  }

  lemma SpelledHeader(w: JournalRecord, record: JournalRecord, version: u16)
    requires record.TransactionStarted? && w.TransactionStarted? && w == record.(entries := w.entries)
    requires SpellAll(w.entries, record.entries, version)
    ensures IsSpelling(w, record, version)
  {
    assert EraseEntries(PlacedEntries(w.entries), version) == record.entries;
  }

  lemma WroteHeader(s: seq<u8>, version: u16) returns (w: JournalRecord)
    requires DecodeHeader(s, version).Success?
    ensures var (record, rest) := DecodeHeader(s, version).value;
            && w.TransactionStarted? && IsSpelling(w, record, version)
            && EncodeRecord(w, version).Success? && s == EncodeRecord(w, version).value + rest
  {
    var (planId, r1) := ReadU64(s).value;
    WroteU64(s);
    var (generation, r2) := ReadU64(r1).value;
    WroteU64(r1);
    var (stepCount, r3) := ReadU64(r2).value;
    WroteU64(r2);
    var (count, r4) := ReadU32(r3).value;
    WroteU32(r3);
    var (entries, r5) := DecodeEntries(r4, count, version).value;
    var ws := WroteEntries(r4, count, version, entries, r5);
    w := TransactionStarted(planId, generation, stepCount, ws);
    SpelledHeader(w, TransactionStarted(planId, generation, stepCount, entries), version);
    assert UnsealedAt(TurnSeal, ws, 0);
    var e := EncodeEntries(ws, version).value;
    Regroup(r3, PutLE(count, 4), r4, e, r5);
    Regroup(r2, PutLE(stepCount, 8), r3, PutLE(count, 4) + e, r5);
    Regroup(r1, PutLE(generation, 8), r2, PutLE(stepCount, 8) + (PutLE(count, 4) + e), r5);
    Regroup(s, PutLE(planId, 8), r1, PutLE(generation, 8) + (PutLE(stepCount, 8) + (PutLE(count, 4) + e)), r5);
  }

  lemma WroteCompletion(s: seq<u8>, wrap: (u64, ExecutionIdentity) -> JournalRecord)
    requires DecodeCompletion(s, wrap).Success?
    ensures var (record, rest) := DecodeCompletion(s, wrap).value;
            exists step: u64, identity :: record == wrap(step, identity) && s == (PutLE(step, 8) + IdentityBytes(identity)) + rest
  {
    var (step, r1) := ReadU64(s).value;
    WroteU64(s);
    var (identity, r2) := DecodeIdentity(r1).value;
    WroteIdentity(r1);
    Regroup(s, PutLE(step, 8), r1, IdentityBytes(identity), r2);
  }

  lemma WroteCause(s: seq<u8>)
    requires DecodeCause(s).Success?
    ensures var (cause, rest) := DecodeCause(s).value; s == CauseBytes(cause) + rest
  {
    var (tag, r1) := ReadU8(s).value;
    WroteU8(s);
    if tag == 2 {
      var (step, r2) := ReadU64(r1).value;
      WroteU64(r1);
      Regroup(s, [tag], r1, PutLE(step, 8), r2);
    }
  }

  lemma WroteBatch(s: seq<u8>)
    requires DecodeBatch(s).Success?
    ensures var (record, rest) := DecodeBatch(s).value;
            record.ForwardBatchPrepared? && s == (PutLE(record.firstStep, 8) + PutLE(record.batchSteps, 8)) + rest
  {
    var (first, r1) := ReadU64(s).value;
    WroteU64(s);
    var (count, r2) := ReadU64(r1).value;
    WroteU64(r1);
    Regroup(s, PutLE(first, 8), r1, PutLE(count, 8), r2);
  }

  /** What is read of a payload is what would have been written. */
  lemma WroteBody(kind: u8, s: seq<u8>, version: u16) returns (w: JournalRecord)
    requires DecodeBody(kind, s, version).Success?
    ensures var (record, rest) := DecodeBody(kind, s, version).value;
            && RecordKind(w) == kind && IsSpelling(w, record, version)
            && EncodeRecord(w, version).Success? && s == EncodeRecord(w, version).value + rest
  {
    w := DecodeBody(kind, s, version).value.0;
    if kind == 1 {
      w := WroteHeader(s, version);
    } else if kind == 3 {
      WroteCompletion(s, (i: u64, id: ExecutionIdentity) => ForwardStepCompleted(i, id));
    } else if kind == 6 {
      WroteCompletion(s, (i: u64, id: ExecutionIdentity) => RollbackStepCompleted(i, id));
    } else if kind == 4 {
      WroteCause(s);
    } else if kind == 13 {
      WroteBatch(s);
    } else if kind == 8 || kind == 9 {
      assert s == [] + s;
    } else {
      WroteU64(s);
    }
  }

  lemma SpellingOf(kind: u8, payload: seq<u8>, version: u16, record: JournalRecord) returns (w: JournalRecord)
    requires DecodeRecord(kind, payload, version) == Success(record)
    ensures RecordKind(w) == kind && EncodeRecord(w, version) == Success(payload) && IsSpelling(w, record, version)
  {
    w := WroteBody(kind, payload, version);
    var encoded := EncodeRecord(w, version).value;
    assert encoded + [] == encoded;
  }

  /** What decodes is exactly what encoding writes: a payload decodes to a record if and only if it is the encoding
      of one that is read as that record. No bytes behind a record and no other kind are accepted. */
  lemma DecodedIsEncoded(kind: u8, payload: seq<u8>, version: u16, record: JournalRecord)
    ensures DecodeRecord(kind, payload, version) == Success(record) <==>
              exists w :: RecordKind(w) == kind && EncodeRecord(w, version) == Success(payload) && IsSpelling(w, record, version)
  {
    if DecodeRecord(kind, payload, version) == Success(record) {
      var _ := SpellingOf(kind, payload, version, record);
    }
    forall w | RecordKind(w) == kind && EncodeRecord(w, version) == Success(payload) && IsSpelling(w, record, version)
      ensures DecodeRecord(kind, payload, version) == Success(record)
    {
      RecordRoundTrip(w, version);
    }
  }

  /** No entry lacks a path that its version could hold. */
  predicate IsLocated(record: JournalRecord, version: u16) {
    record.TransactionStarted? && version >= 5 ==> forall i :: 0 <= i < |record.entries| ==> record.entries[i].nativeParent.Some?
  }

  lemma SpelledEntry(w: JournalEntry, e: JournalEntry, version: u16)
    requires Spells(w, e, version) && EncodeEntry(w, version).Success? && (version >= 5 ==> e.nativeParent.Some?)
    ensures EncodeEntry(e, version) == EncodeEntry(w, version)
  {
  }

  lemma {:induction false} SpelledEntries(ws: seq<JournalEntry>, entries: seq<JournalEntry>, version: u16)
    requires SpellAll(ws, entries, version) && EncodeEntries(ws, version).Success?
    requires version >= 5 ==> forall i :: 0 <= i < |entries| ==> entries[i].nativeParent.Some?
    ensures EncodeEntries(entries, version) == EncodeEntries(ws, version)
    decreases |ws|
  {
    if ws != [] {
      assert Spells(ws[0], entries[0], version);
      SpelledEntry(ws[0], entries[0], version);
      assert SpellAll(ws[1..], entries[1..], version);
      SpelledEntries(ws[1..], entries[1..], version);
    }
  }

  /** There are two spellings of a record only if it is a header of version 5 or later with an entry that has no
      path: what identifies the directory of that is dropped. */
  lemma SpellingsAgree(w: JournalRecord, record: JournalRecord, version: u16)
    requires IsSpelling(w, record, version) && EncodeRecord(w, version).Success? && IsLocated(record, version)
    ensures RecordKind(record) == RecordKind(w) && EncodeRecord(record, version) == EncodeRecord(w, version)
  {
    if w.TransactionStarted? {
      forall i | 0 <= i < |w.entries| ensures Spells(w.entries[i], record.entries[i], version) {
        assert KindReadable(w.entries[i], version);
      }
      SpelledEntries(w.entries, record.entries, version);
    }
  }

  /** And then there are: with and without that identity the same is read. */
  lemma StrayIdentitiesAreDropped(e: JournalEntry, identity: ExecutionIdentity, version: u16)
    requires version >= 5 && EncodeEntry(e, version).Success? && e.nativeParent.None? && e.parentExecutionIdentity.None?
    ensures var w := e.(parentExecutionIdentity := Some(identity));
            && EncodeEntry(w, version).Success? && EncodeEntry(w, version) != EncodeEntry(e, version)
            && DecodeEntry(EntryBytes(w, version), version) == DecodeEntry(EntryBytes(e, version), version) == Success((e, []))
  {
    var w := e.(parentExecutionIdentity := Some(identity));
    ReadsEntry(w, version, []);
    ReadsEntry(e, version, []);
    assert EntryBytes(w, version) + [] == EntryBytes(w, version);
    assert EntryBytes(e, version) + [] == EntryBytes(e, version);
    assert |EntryBytes(w, version)| > |EntryBytes(e, version)|;
  }

  // ---------------------------------------------------------------- files

  /** The header of an intact frame is the one that its fields make, and its payload decodes. */
  lemma IntactIsLaidOut(crc: Checksum, bytes: seq<u8>, index: nat, frame: JournalFrame)
    requires Intact(crc, bytes, index, frame)
    ensures |bytes| >= FRAME_HEADER_BYTES && |bytes[24..]| <= MAX_JOURNAL_PAYLOAD_BYTES <= U32_MAX && index <= U64_MAX
    ensures var meta := MetaBytes(frame.schemaVersion, bytes[6], index, |bytes[24..]|);
            bytes == HeaderBytes(meta, crc(meta + bytes[24..])) + bytes[24..]
    ensures DecodeRecord(bytes[6], bytes[24..], frame.schemaVersion) == Success(frame.record)
  {
    assert Unsealed(FrameSeal, 0);
    PutGet(bytes[4..6]);
    PutGet(bytes[8..16]);
    PutGet(bytes[16..20]);
    PutGet(bytes[20..24]);
    var meta := MetaBytes(frame.schemaVersion, bytes[6], index, |bytes[24..]|);
    assert meta == bytes[4..20];
    assert HeaderBytes(meta, crc(meta + bytes[24..])) == bytes[..24];
    assert bytes == bytes[..24] + bytes[24..];
  }

  lemma FrameIsMade(crc: Checksum, index: nat, w: JournalRecord, version: u16, kind: u8, payload: seq<u8>)
    requires index <= U64_MAX && RecordKind(w) == kind && EncodeRecord(w, version) == Success(payload)
    requires |payload| <= MAX_JOURNAL_PAYLOAD_BYTES <= U32_MAX
    ensures var meta := MetaBytes(version, kind, index, |payload|);
            Writer(crc, version)(index, w) == Success(HeaderBytes(meta, crc(meta + payload)) + payload)
  {
  }

  lemma IntactIsWritten(crc: Checksum, bytes: seq<u8>, index: nat, frame: JournalFrame) returns (w: JournalRecord)
    requires Intact(crc, bytes, index, frame)
    ensures Writer(crc, frame.schemaVersion)(index, w) == Success(bytes) && IsSpelling(w, frame.record, frame.schemaVersion)
  {
    IntactIsLaidOut(crc, bytes, index, frame);
    w := SpellingOf(bytes[6], bytes[24..], frame.schemaVersion, frame.record);
    FrameIsMade(crc, index, w, frame.schemaVersion, bytes[6], bytes[24..]);
  }

  ghost predicate AreSpellings(ws: seq<JournalRecord>, frames: seq<JournalFrame>) {
    |ws| == |frames| && forall i :: 0 <= i < |ws| ==> IsSpelling(ws[i], frames[i].record, frames[i].schemaVersion)
  }

  lemma {:induction false} IntactAreWritten(crc: Checksum, chunks: seq<seq<u8>>, frames: seq<JournalFrame>, n: nat)
    returns (ws: seq<JournalRecord>)
    requires IntactFrames(crc, chunks, frames) && n <= |frames|
    ensures AreSpellings(ws, frames[..n])
    ensures forall i :: 0 <= i < n ==> Writer(crc, frames[i].schemaVersion)(i, ws[i]) == Success(chunks[i])
  {
    ws := [];
    if n > 0 {
      var before := IntactAreWritten(crc, chunks, frames, n - 1);
      var last := IntactIsWritten(crc, chunks[n - 1], n - 1, frames[n - 1]);
      ws := before + [last];
    }
  }

  lemma RecordsAreWritten(crc: Checksum, frames: seq<JournalFrame>, ws: seq<JournalRecord>, version: u16)
    requires AreSpellings(ws, frames) && FramesEncode(Writer(crc, version), ws)
    requires forall i :: 0 <= i < |frames| ==> frames[i].schemaVersion == version && IsLocated(frames[i].record, version)
    ensures FramesEncode(Writer(crc, version), RecordsOf(frames))
    ensures FileOf(Writer(crc, version), RecordsOf(frames)) == FileOf(Writer(crc, version), ws)
  {
    var write, records := Writer(crc, version), RecordsOf(frames);
    forall i | 0 <= i < |frames| ensures write(i, records[i]) == write(i, ws[i]) && write(i, ws[i]).Success? {
      WritesAlike(crc, i, ws[i], frames[i].record, version);
    }
    assert Encodings(write, records) == Encodings(write, ws);
  }

  lemma WritesAlike(crc: Checksum, index: nat, w: JournalRecord, record: JournalRecord, version: u16)
    requires IsSpelling(w, record, version) && Writer(crc, version)(index, w).Success? && IsLocated(record, version)
    ensures Writer(crc, version)(index, record) == Writer(crc, version)(index, w)
  {
    SpellingsAgree(w, record, version);
  }

  /** A file that decodes is, byte by byte, the file that writing its records gives, if no entry lacks a path, and
      else that of records which are read as those. */
  lemma DecodedIsWritten(crc: Checksum, bytes: seq<u8>, frames: seq<JournalFrame>) returns (ws: seq<JournalRecord>)
    requires Measured(Reader(crc)) && Decoded(Reader(crc), bytes) == Success(frames) && frames != []
    ensures var write, version := Writer(crc, frames[0].schemaVersion), frames[0].schemaVersion;
            && AreSpellings(ws, frames) && FramesEncode(write, ws) && bytes == FileOf(write, ws)
            && ((forall i :: 0 <= i < |frames| ==> IsLocated(frames[i].record, version)) ==>
                  FramesEncode(write, RecordsOf(frames)) && bytes == FileOf(write, RecordsOf(frames)))
  {
    DecodedIsIntact(crc, bytes, frames);
    var chunks :| IntactFrames(crc, chunks, frames) && bytes == Concat(chunks);
    ws := IntactAreWritten(crc, chunks, frames, |frames|);
    assert frames[..|frames|] == frames;
    var write, version := Writer(crc, frames[0].schemaVersion), frames[0].schemaVersion;
    assert Encodings(write, ws) == chunks;
    if forall i :: 0 <= i < |frames| ==> IsLocated(frames[i].record, version) {
      RecordsAreWritten(crc, frames, ws, version);
    }
  }
}
