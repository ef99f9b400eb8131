/** Literal replacement with a bound on the output: a fast loop over the matches, and what it refines. */
module Rules {
  import opened Primitives

  const MAX_RULE_OUTPUT_BYTES: nat := 4_096

  type Text = seq<u8>

  datatype Outcome = Replacement(text: Text) | OutputTooLong

  /** All occurrences from left to right, none overlapping the one before. */
  ghost function Replaced(input: Text, search: Text, replacement: Text): Text
    requires search != []
    decreases |input|
  {
    if input == [] then []
    else if search <= input then replacement + Replaced(input[|search|..], search, replacement)
    else [input[0]] + Replaced(input[1..], search, replacement)
  }

  predicate OccursAt(input: Text, search: Text, offset: nat) {
    offset + |search| <= |input| && input[offset..offset + |search|] == search
  }

  /** The first occurrence at or behind `from`. */
  method NextMatch(input: Text, search: Text, from: nat) returns (r: Option<nat>)
    requires from <= |input| && search != []
    ensures r.Some? ==> from <= r.value && OccursAt(input, search, r.value)
    ensures r.Some? ==> forall i :: from <= i < r.value ==> !OccursAt(input, search, i)
    ensures r.None? ==> forall i :: from <= i ==> !OccursAt(input, search, i)
  {
    var offset := from;
    while offset + |search| <= |input|
      invariant from <= offset
      invariant forall i :: from <= i < offset ==> !OccursAt(input, search, i)
      decreases |input| - offset
    {
      if OccursAt(input, search, offset) {
        return Some(offset);
      }
      offset := offset + 1;
    }
    return None;
  }

  /** Appends within the bound, or leaves the output alone. */
  method AppendBounded(output: Text, value: Text) returns (r: Option<Text>)
    ensures r == if |output| + |value| <= MAX_RULE_OUTPUT_BYTES then Some(output + value) else None
  {
    if |output| + |value| > MAX_RULE_OUTPUT_BYTES {
      return None;
    }
    return Some(output + value);
  }

  lemma OccurrenceIsPrefix(input: Text, search: Text, offset: nat)
    requires offset <= |input|
    ensures OccursAt(input, search, offset) <==> search <= input[offset..]
  {
    if offset + |search| <= |input| {
      assert input[offset..][..|search|] == input[offset..offset + |search|];
    }
  }

  /** Text without an occurrence is copied. */
  lemma {:induction false} CopiedUpTo(input: Text, search: Text, replacement: Text, from: nat, to: nat)
    requires from <= to <= |input| && search != []
    requires forall i :: from <= i < to ==> !OccursAt(input, search, i)
    ensures Replaced(input[from..], search, replacement) == input[from..to] + Replaced(input[to..], search, replacement)
    decreases (to as int) - from
  {
    if from < to {
      CopiedUpTo(input, search, replacement, from + 1, to);
      var rest := input[from..];
      OccurrenceIsPrefix(input, search, from);
      assert rest[1..] == input[from + 1..];
      assert input[from..to] == [input[from]] + input[from + 1..to];
    }
  }

  /** `output` is what the input before `consumed` becomes. */
  ghost predicate Underway(input: Text, search: Text, replacement: Text, output: Text, consumed: nat)
    requires search != [] && consumed <= |input|
  {
    forall x {:trigger UnsealedAt(UnderwaySeal, output, x)} :: UnsealedAt(UnderwaySeal, output, x) ==>
      Replaced(input, search, replacement) == output + Replaced(input[consumed..], search, replacement)
  }

  lemma UnderwayIsBounded(input: Text, search: Text, replacement: Text, output: Text, consumed: nat)
    requires search != [] && consumed <= |input| && Underway(input, search, replacement, output, consumed)
    ensures |output| <= |Replaced(input, search, replacement)|
  {
    assert UnsealedAt(UnderwaySeal, output, 0);
  }

  lemma CopyingAdvances(input: Text, search: Text, replacement: Text, output: Text, from: nat, to: nat)
    requires search != [] && from <= to <= |input| && Underway(input, search, replacement, output, from)
    requires forall i :: from <= i < to ==> !OccursAt(input, search, i)
    ensures Underway(input, search, replacement, output + input[from..to], to)
  {
    assert UnsealedAt(UnderwaySeal, output, 0);
    CopiedUpTo(input, search, replacement, from, to);
    var rest := Replaced(input[to..], search, replacement);
    assert output + (input[from..to] + rest) == (output + input[from..to]) + rest;
  }

  lemma MatchAdvances(input: Text, search: Text, replacement: Text, output: Text, offset: nat)
    requires search != [] && OccursAt(input, search, offset) && Underway(input, search, replacement, output, offset)
    ensures Underway(input, search, replacement, output + replacement, offset + |search|)
  {
    assert UnsealedAt(UnderwaySeal, output, 0);
    OccurrenceIsPrefix(input, search, offset);
    assert input[offset..][|search|..] == input[offset + |search|..];
    var more := Replaced(input[offset + |search|..], search, replacement);
    assert output + (replacement + more) == (output + replacement) + more;
  }

  lemma NothingBehindTheEnd(input: Text, search: Text, replacement: Text, output: Text)
    requires search != [] && Underway(input, search, replacement, output, |input|)
    ensures Replaced(input, search, replacement) == output
  {
    assert UnsealedAt(UnderwaySeal, output, 0);
    assert input[|input|..] == [];
  }

  lemma NothingConsumedYet(input: Text, search: Text, replacement: Text)
    requires search != []
    ensures Underway(input, search, replacement, [], 0)
  {
    assert input[0..] == input;
  }

  /** The loop over the matches yields the full replacement exactly when that fits; stopping early never
      rejects a result that fits. */
  method ReplaceLiteralBounded(input: Text, search: Text, replacement: Text) returns (r: Outcome)
    requires search != []
    ensures var full := Replaced(input, search, replacement);
            r == if |full| <= MAX_RULE_OUTPUT_BYTES then Replacement(full) else OutputTooLong
  {
    var output: Text := [];
    var consumed := 0;
    NothingConsumedYet(input, search, replacement);
    while true
      invariant consumed <= |input| && Underway(input, search, replacement, output, consumed)
      decreases |input| - consumed
    {
      var next := NextMatch(input, search, consumed);
      var to := if next.Some? then next.value else |input|;
      CopyingAdvances(input, search, replacement, output, consumed, to);
      UnderwayIsBounded(input, search, replacement, output + input[consumed..to], to);
      var copied := AppendBounded(output, input[consumed..to]);
      if copied.None? {
        return OutputTooLong;
      }
      output := copied.value;
      if next.None? {
        NothingBehindTheEnd(input, search, replacement, output);
        return Replacement(output);
      }
      MatchAdvances(input, search, replacement, output, to);
      UnderwayIsBounded(input, search, replacement, output + replacement, to + |search|);
      var replaced := AppendBounded(output, replacement);
      if replaced.None? {
        return OutputTooLong;
      }
      output, consumed := replaced.value, to + |search|;
    }
  }

  // ---------------------------------------------------------------- what replacing means

  /** The pieces with something between them. */
  ghost function Joined(pieces: seq<Text>, between: Text): Text {
    if pieces == [] then []
    else if |pieces| == 1 then pieces[0]
    else pieces[0] + (between + Joined(pieces[1..], between))
  }

  /** The pieces of a text around the leftmost occurrences that do not overlap: with an occurrence behind it, a
      piece shows none that starts earlier, and the last piece shows none at all. */
  ghost predicate IsSplit(pieces: seq<Text>, search: Text) {
    && pieces != []
    && (forall i :: 0 <= i < |pieces| - 1 ==> ShowsNone(pieces[i] + search, search, |pieces[i]|))
    && ShowsNone(pieces[|pieces| - 1], search, |pieces[|pieces| - 1]|)
  }

  /** No occurrence starts before `end`. */
  ghost predicate ShowsNone(text: Text, search: Text, end: nat) {
    forall o: nat :: o < end ==> !OccursAt(text, search, o)
  }

  /** Splitting a text at the leftmost occurrences and joining the pieces by the replacement is what replacing does... */
  lemma {:induction false} ReplacingJoins(pieces: seq<Text>, search: Text, replacement: Text)
    requires search != [] && IsSplit(pieces, search)
    ensures Replaced(Joined(pieces, search), search, replacement) == Joined(pieces, replacement)
    decreases |pieces|
  {
    var input := Joined(pieces, search);
    assert input[0..] == input;
    if |pieces| == 1 {
      CopiedUpTo(input, search, replacement, 0, |input|);
      assert input[0..|input|] == input && input[|input|..] == [];
    } else {
      var p, rest := pieces[0], pieces[1..];
      var tail := Joined(rest, search);
      FirstPieceShowsNone(p, search, tail);
      assert ShowsNone(pieces[0] + search, search, |p|);
      CopiedUpTo(input, search, replacement, 0, |p|);
      assert input[|p|..] == search + tail && input[0..|p|] == p;
      assert (search + tail)[|search|..] == tail && search <= search + tail;
      assert forall i :: 0 <= i < |rest| ==> rest[i] == pieces[i + 1];
      ReplacingJoins(rest, search, replacement);
    }
  }

  lemma FirstPieceShowsNone(p: Text, search: Text, tail: Text)
    ensures forall o: nat :: o < |p| ==> (OccursAt(p + search, search, o) <==> OccursAt(p + (search + tail), search, o))
  {
    forall o: nat | o < |p| ensures OccursAt(p + search, search, o) <==> OccursAt(p + (search + tail), search, o) {
      assert (p + search)[o..o + |search|] == (p + (search + tail))[o..o + |search|];
    }
  }

  lemma {:induction false} FirstOccurrence(input: Text, search: Text, from: nat) returns (r: Option<nat>)
    requires from <= |input| && search != []
    ensures r.Some? ==> from <= r.value && OccursAt(input, search, r.value)
    ensures forall o: nat :: from <= o < (if r.Some? then r.value else |input| + 1) ==> !OccursAt(input, search, o)
    decreases |input| - from
  {
    if from == |input| {
      r := None;
    } else if OccursAt(input, search, from) {
      r := Some(from);
    } else {
      r := FirstOccurrence(input, search, from + 1);
    }
  }

  /** ...and every text can be split so. */
  lemma {:induction false} EveryTextSplits(input: Text, search: Text) returns (pieces: seq<Text>)
    requires search != []
    ensures IsSplit(pieces, search) && Joined(pieces, search) == input
    decreases |input|
  {
    var first := FirstOccurrence(input, search, 0);
    if first.None? {
      pieces := [input];
    } else {
      var o := first.value;
      var p, tail := input[..o], input[o + |search|..];
      assert input == p + (search + tail);
      FirstPieceShowsNone(p, search, tail);
      var more := EveryTextSplits(tail, search);
      pieces := [p] + more;
      assert pieces[1..] == more;
      forall i | 0 <= i < |pieces| - 1 ensures ShowsNone(pieces[i] + search, search, |pieces[i]|) {
        if i > 0 {
          assert pieces[i] == more[i - 1];
        }
      }
    }
  }

  /** Replacing a text by itself changes nothing. */
  lemma {:induction false} ReplacingByItself(input: Text, search: Text)
    requires search != []
    ensures Replaced(input, search, search) == input
    decreases |input|
  {
    if input != [] {
      if search <= input {
        ReplacingByItself(input[|search|..], search);
        assert input == search + input[|search|..];
      } else {
        ReplacingByItself(input[1..], search);
        assert input == [input[0]] + input[1..];
      }
    }
  }
}
