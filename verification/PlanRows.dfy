/** Preview rows: names rewritten rule by rule under one trace budget for the whole plan. */
module PlanRows {
  import opened Primitives
  import opened Execution
  import opened Sequence

  const MAX_PLAN_TRACE_BYTES: usize := 8 * 1_024 * 1_024

  datatype NameStatus = Changed | Unchanged | Blocked

  datatype DiagnosticCode =
    | UnchangedName
    | EmptyName
    | IllegalCharacter
    | TrailingDotOrSpace
    | ReservedName
    | NameTooLong
    | DuplicateDestination
    | UnsupportedEncoding
    | OccupiedDestination
    | StaleSource
    | ParentUnavailable
    | InvalidRule
    | SequenceOverflow
    | AncestorDescendantConflict

  datatype Diagnostic = Diagnostic(code: DiagnosticCode, blocked: bool)

  datatype TraceStep = TraceStep(ruleIndex: nat, before: seq<u8>, after: seq<u8>)

  function StatusFor(original: Name, proposed: Name, diagnostics: seq<Diagnostic>): NameStatus {
    if exists d :: d in diagnostics && d.blocked then Blocked
    else if original == proposed then Unchanged
    else Changed
  }

  datatype PlanRow = PlanRow(
    sourceId: u64, parentId: u64, originalName: Name, proposedName: Name, status: NameStatus,
    trace: seq<TraceStep>, diagnostics: seq<Diagnostic>, overrideApplied: bool, traceTruncated: bool)
  {
    /** Blocks a row; the same reason is listed once. */
    function Block(code: DiagnosticCode): PlanRow {
      var listed := exists d :: d in diagnostics && d.code == code;
      this.(status := Blocked, diagnostics := if listed then diagnostics else diagnostics + [Diagnostic(code, true)])
    }
  }

  function NewRow(source: SourceSnapshot, proposed: Name, trace: seq<TraceStep>, diagnostics: seq<Diagnostic>,
                  overrideApplied: bool, truncated: bool): PlanRow
  {
    PlanRow(source.id, source.parentId, source.nativeName, proposed,
            StatusFor(source.nativeName, proposed, diagnostics), trace, diagnostics, overrideApplied, truncated)
  }

  /** The bytes that a trace keeps alive: texts are shared between neighbouring steps. */
  function RetainedTraceBytes(trace: seq<TraceStep>): nat {
    if trace == [] then 0
    else if |trace| == 1 then |trace[0].before| + |trace[0].after|
    else RetainedTraceBytes(trace[..|trace| - 1]) + |trace[|trace| - 1].after|
  }

  ghost function AfterBytes(trace: seq<TraceStep>): nat {
    if trace == [] then 0 else |trace[0].after| + AfterBytes(trace[1..])
  }

  /** The first text counts once, and every text that a step has made. */
  lemma {:induction false} RetainedIsShared(trace: seq<TraceStep>)
    ensures RetainedTraceBytes(trace) == AfterBytes(trace) + if trace == [] then 0 else |trace[0].before|
  {
    if |trace| == 1 {
      assert trace[1..] == [];
    } else if trace != [] {
      var front := trace[..|trace| - 1];
      RetainedIsShared(front);
      LastCounts(trace);
    }
  }

  lemma {:induction false} LastCounts(trace: seq<TraceStep>)
    requires trace != []
    ensures AfterBytes(trace) == AfterBytes(trace[..|trace| - 1]) + |trace[|trace| - 1].after|
  {
    var front := trace[..|trace| - 1];
    if |trace| == 1 {
      assert trace[1..] == [];
    } else {
      LastCounts(trace[1..]);
      assert front[1..] == trace[1..][..|trace| - 2];
    }
  }

  function SaturatingAdd(a: nat, b: nat): usize {
    if a + b > USIZE_MAX then USIZE_MAX else a + b
  }

  class TraceBudget {
    var remainingBytes: usize

    predicate Valid()
      reads this
    {
      remainingBytes <= MAX_PLAN_TRACE_BYTES
    }

    constructor ()
      ensures Valid() && remainingBytes == MAX_PLAN_TRACE_BYTES
    {
      remainingBytes := MAX_PLAN_TRACE_BYTES;
    }

    predicate Exhausted()
      reads this
    {
      remainingBytes == 0
    }

    /** Takes the bytes out of the budget, or exhausts it. */
    method Retain(bytes: usize) returns (retained: bool)
      requires Valid()
      modifies this
      ensures Valid()
      ensures retained <==> bytes <= old(remainingBytes)
      ensures remainingBytes == if retained then old(remainingBytes) - bytes else 0
    {
      if bytes > remainingBytes {
        remainingBytes := 0;
        return false;
      }
      remainingBytes := remainingBytes - bytes;
      return true;
    }
  }

  // ---------------------------------------------------------------- rules

  datatype RuleApplicationError = UnsupportedText | SequenceExhausted | OutputTooLong

  /** A compiled pipeline: what each rule does to a name is a parameter of the model. */
  datatype RulePipeline = RulePipeline(
    count: nat,
    appliesToDirectories: nat -> bool,
    allocation: nat -> Option<SequenceAllocation>,
    apply: (nat, Name, Option<u64>) -> Result<Name, RuleApplicationError>)

  /** How the target compares and validates names; how names look as text is a parameter as well. */
  datatype TargetNames = TargetNames(
    windows: bool,
    isText: Name -> bool,
    display: Name -> seq<u8>,
    comparisonKey: Name -> Name,
    validate: Name -> seq<Diagnostic>)
  {
    function Key(name: Name): Name {
      if windows then comparisonKey(name) else name
    }

    function Validate(name: Name): (r: seq<Diagnostic>)
      ensures (forall d :: d in r ==> !d.blocked) ==> name != [] && isText(name)
    {
      if name == [] then [Diagnostic(EmptyName, true)]
      else if !isText(name) then [Diagnostic(UnsupportedEncoding, true)]
      else if windows then validate(name)
      else []
    }
  }

  type SequenceValues = seq<Option<seq<Option<u64>>>>

  function SequenceValue(values: SequenceValues, rule: nat, sourceIndex: nat): Option<u64> {
    if rule < |values| && values[rule].Some? && sourceIndex < |values[rule].value| then values[rule].value[sourceIndex] else None
  }

  function CodeOf(error: RuleApplicationError): DiagnosticCode {
    match error
    case UnsupportedText => UnsupportedEncoding
    case SequenceExhausted => SequenceOverflow
    case OutputTooLong => NameTooLong
  }

  predicate Applies(rules: RulePipeline, source: SourceSnapshot, rule: nat) {
    !(source.fingerprint.Some? && source.fingerprint.value.entryKind == Directory) || rules.appliesToDirectories(rule)
  }

  // ---------------------------------------------------------------- the trace nobody cuts short

  /** The name after some rules, every step on the way, and the error that ended it, if any. */
  datatype Rewriting = Rewriting(name: Name, steps: seq<TraceStep>, error: Option<RuleApplicationError>)

  ghost function Rewritten(rules: RulePipeline, display: Name -> seq<u8>, source: SourceSnapshot, values: SequenceValues,
                           sourceIndex: nat, count: nat): Rewriting
  {
    if count == 0 then Rewriting(source.nativeName, [], None)
    else
      Following(Rewritten(rules, display, source, values, sourceIndex, count - 1), rules, display, source, values, sourceIndex, count - 1)
  }

  /** What one more rule makes of it. */
  ghost function Following(before: Rewriting, rules: RulePipeline, display: Name -> seq<u8>, source: SourceSnapshot,
                           values: SequenceValues, sourceIndex: nat, rule: nat): Rewriting
  {
    if before.error.Some? || !Applies(rules, source, rule) then before
    else match rules.apply(rule, before.name, SequenceValue(values, rule, sourceIndex))
      case Failure(error) => before.(error := Some(error))
      case Success(after) =>
        Rewriting(after, before.steps + [TraceStep(rule, display(before.name), display(after))], None)
  }

  /** `full` is what the first `count` rules make of the source's name. */
  ghost predicate IsRewriting(rules: RulePipeline, display: Name -> seq<u8>, source: SourceSnapshot, values: SequenceValues,
                              sourceIndex: nat, count: nat, full: Rewriting)
  {
    forall x {:trigger UnsealedAt(RewritingSeal, count, x)} :: UnsealedAt(RewritingSeal, count, x) ==>
      full == Rewritten(rules, display, source, values, sourceIndex, count)
  }

  lemma RewritingGoesOn(rules: RulePipeline, display: Name -> seq<u8>, source: SourceSnapshot, values: SequenceValues,
                        sourceIndex: nat, count: nat, full: Rewriting)
    requires IsRewriting(rules, display, source, values, sourceIndex, count, full)
    ensures IsRewriting(rules, display, source, values, sourceIndex, count + 1,
                        Following(full, rules, display, source, values, sourceIndex, count))
  {
    assert UnsealedAt(RewritingSeal, count, 0);
  }

  ghost function ApplicableCount(rules: RulePipeline, source: SourceSnapshot, count: nat): nat {
    if count == 0 then 0 else ApplicableCount(rules, source, count - 1) + if Applies(rules, source, count - 1) then 1 else 0
  }

  /** Steps chain: each starts from what the one before ended with, the first from the original name. */
  ghost predicate Chained(trace: seq<TraceStep>, first: seq<u8>) {
    && (trace != [] ==> trace[0].before == first)
    && forall k :: 0 < k < |trace| ==> trace[k].before == trace[k - 1].after
  }

  lemma {:induction false} RewritingIsChained(rules: RulePipeline, display: Name -> seq<u8>, source: SourceSnapshot,
                                              values: SequenceValues, sourceIndex: nat, count: nat)
    ensures var r := Rewritten(rules, display, source, values, sourceIndex, count);
            && Chained(r.steps, display(source.nativeName))
            && display(r.name) == (if r.steps == [] then display(source.nativeName) else r.steps[|r.steps| - 1].after)
            && (r.error.None? ==> |r.steps| == ApplicableCount(rules, source, count))
  {
    if count > 0 {
      RewritingIsChained(rules, display, source, values, sourceIndex, count - 1);
    }
  }

  /** A directory passes by the rules that are not for directories; any other source takes them all. */
  ghost predicate IsFor(rules: RulePipeline, source: SourceSnapshot, rule: nat) {
    source.fingerprint.Some? && source.fingerprint.value.entryKind == Directory ==> rules.appliesToDirectories(rule)
  }

  /** The steps are those of the rules that are for the source, in their order, none left out before the end... */
  lemma {:induction false} StepsAreOfTheirRules(rules: RulePipeline, display: Name -> seq<u8>, source: SourceSnapshot,
                                                values: SequenceValues, sourceIndex: nat, count: nat)
    ensures var r := Rewritten(rules, display, source, values, sourceIndex, count);
            && (forall k :: 0 <= k < |r.steps| ==> r.steps[k].ruleIndex < count && IsFor(rules, source, r.steps[k].ruleIndex))
            && (forall j, k :: 0 <= j < k < |r.steps| ==> r.steps[j].ruleIndex < r.steps[k].ruleIndex)
            && (r.error.None? ==>
                  forall rule: nat :: rule < count && IsFor(rules, source, rule) ==> exists k :: 0 <= k < |r.steps| && r.steps[k].ruleIndex == rule)
  {
    if count > 0 {
      StepsAreOfTheirRules(rules, display, source, values, sourceIndex, count - 1);
      var before := Rewritten(rules, display, source, values, sourceIndex, count - 1);
      var r := Rewritten(rules, display, source, values, sourceIndex, count);
      if r.error.None? {
        forall rule: nat | rule < count && IsFor(rules, source, rule)
          ensures exists k :: 0 <= k < |r.steps| && r.steps[k].ruleIndex == rule
        {
          if rule < count - 1 {
            var k :| 0 <= k < |before.steps| && before.steps[k].ruleIndex == rule;
            assert r.steps[k].ruleIndex == rule;
          } else {
            assert r.steps[|r.steps| - 1].ruleIndex == rule;
          }
        }
      }
    }
  }

  lemma PrefixIsChained(trace: seq<TraceStep>, steps: seq<TraceStep>, first: seq<u8>)
    requires Chained(steps, first) && trace <= steps
    ensures Chained(trace, first)
  {
  }

  // ---------------------------------------------------------------- one row

  /** The trace is the full one if `start` bytes pay for it, and else the longest part of it that they pay
      for; what is left afterwards is the rest, or nothing once a step was refused. */
  ghost predicate Traced(trace: seq<TraceStep>, truncated: bool, full: Rewriting, start: nat, remaining: nat) {
    && trace <= full.steps && RetainedTraceBytes(trace) <= start
    && (if truncated then remaining == 0 && IsCutShort(trace, full.steps, start)
        else trace == full.steps && remaining == start - RetainedTraceBytes(trace))
  }

  /** The next step is not paid for, or nothing was left to begin it with. */
  ghost predicate IsCutShort(trace: seq<TraceStep>, steps: seq<TraceStep>, start: nat) {
    && |trace| < |steps|
    && (RetainedTraceBytes(steps[..|trace| + 1]) > start || RetainedTraceBytes(trace) == start)
  }

  /** While there is budget left, the text that the next step starts from is at hand or yet to be made. */
  ghost predicate PriorFits(prior: Option<seq<u8>>, trace: seq<TraceStep>, shown: seq<u8>, remaining: nat) {
    remaining != 0 ==> if trace == [] then prior.None? else prior == Some(shown)
  }

  lemma LongerTrace(trace: seq<TraceStep>, step: TraceStep)
    ensures RetainedTraceBytes(trace + [step])
              == RetainedTraceBytes(trace) + |step.after| + if trace == [] then |step.before| else 0
  {
    assert (trace + [step])[..|trace|] == trace;
  }

  /** With nothing left to spend, a further step is not kept. */
  lemma StaysCutShort(trace: seq<TraceStep>, truncated: bool, full: Rewriting, step: TraceStep, start: nat)
    requires Traced(trace, truncated, full, start, 0)
    ensures Traced(trace, true, full.(steps := full.steps + [step]), start, 0)
  {
    if truncated {
      assert (full.steps + [step])[..|trace| + 1] == full.steps[..|trace| + 1];
    }
  }

  /** Adds a step to the trace if its texts can be paid for. */
  method KeepStep(step: TraceStep, trace: seq<TraceStep>, truncated: bool, prior: Option<seq<u8>>, budget: TraceBudget,
                  ghost full: Rewriting, ghost start: nat)
    returns (trace': seq<TraceStep>, truncated': bool, prior': Option<seq<u8>>)
    requires Traced(trace, truncated, full, start, budget.remainingBytes)
    requires budget.Valid() && !budget.Exhausted() && (prior.None? <==> trace == [])
    modifies budget
    ensures budget.Valid()
    ensures Traced(trace', truncated', full.(steps := full.steps + [step]), start, budget.remainingBytes)
    ensures PriorFits(prior', trace', step.after, budget.remainingBytes)
  {
    LongerTrace(trace, step);
    var firstBytes := if prior.None? then |step.before| else 0;
    var retained := budget.Retain(SaturatingAdd(|step.after|, firstBytes));
    if retained {
      return trace + [step], truncated, Some(step.after);
    }
    assert (full.steps + [step])[..|trace| + 1] == trace + [step];
    return trace, true, None;
  }

  /** Applies the rules in order, keeping as much of the trace as the budget allows. */
  method ApplyRules(sourceIndex: nat, source: SourceSnapshot, rules: RulePipeline, values: SequenceValues,
                    target: TargetNames, budget: TraceBudget)
    returns (proposed: Name, trace: seq<TraceStep>, truncated: bool, error: Option<RuleApplicationError>, ghost full: Rewriting)
    requires budget.Valid()
    modifies budget
    ensures budget.Valid()
    ensures IsRewriting(rules, target.display, source, values, sourceIndex, rules.count, full)
    ensures proposed == full.name && error == full.error
    ensures Traced(trace, truncated, full, old(budget.remainingBytes), budget.remainingBytes)
  {
    proposed, trace, truncated, error := source.nativeName, [], false, None;
    var prior: Option<seq<u8>> := None;
    ghost var start := budget.remainingBytes;
    full := Rewriting(source.nativeName, [], None);
    for i := 0 to rules.count
      invariant IsRewriting(rules, target.display, source, values, sourceIndex, i, full)
      invariant proposed == full.name && full.error == error == None
      invariant Traced(trace, truncated, full, start, budget.remainingBytes)
      invariant budget.Valid() && PriorFits(prior, trace, target.display(proposed), budget.remainingBytes)
    {
      ghost var next := Following(full, rules, target.display, source, values, sourceIndex, i);
      RewritingGoesOn(rules, target.display, source, values, sourceIndex, i, full);
      if !Applies(rules, source, i) {
        full := next;
        continue;
      }
      var before := if budget.Exhausted() then None else if prior.Some? then prior else Some(target.display(proposed));
      var applied := rules.apply(i, proposed, SequenceValue(values, i, sourceIndex));
      if applied.Failure? {
        full := next;
        StaysStopped(rules, target.display, source, values, sourceIndex, i + 1, full);
        return proposed, trace, truncated, Some(applied.error), full;
      }
      ghost var was := proposed;
      proposed := applied.value;
      if before.Some? {
        assert before.value == target.display(was);
        var step := TraceStep(i, before.value, target.display(proposed));
        trace, truncated, prior := KeepStep(step, trace, truncated, prior, budget, full, start);
      } else {
        StaysCutShort(trace, truncated, full, TraceStep(i, target.display(was), target.display(proposed)), start);
        truncated := true;
      }
      full := next;
    }
  }

  lemma {:induction false} RewritingStops(rules: RulePipeline, display: Name -> seq<u8>, source: SourceSnapshot,
                                          values: SequenceValues, sourceIndex: nat, count: nat, end: nat)
    requires count <= end && Rewritten(rules, display, source, values, sourceIndex, count).error.Some?
    ensures Rewritten(rules, display, source, values, sourceIndex, end) == Rewritten(rules, display, source, values, sourceIndex, count)
    decreases end
  {
    if count < end {
      RewritingStops(rules, display, source, values, sourceIndex, count, end - 1);
    }
  }

  lemma StaysStopped(rules: RulePipeline, display: Name -> seq<u8>, source: SourceSnapshot, values: SequenceValues,
                     sourceIndex: nat, count: nat, full: Rewriting)
    requires count <= rules.count && full.error.Some?
    requires IsRewriting(rules, display, source, values, sourceIndex, count, full)
    ensures IsRewriting(rules, display, source, values, sourceIndex, rules.count, full)
  {
    assert UnsealedAt(RewritingSeal, count, 0);
    RewritingStops(rules, display, source, values, sourceIndex, count, rules.count);
  }

  /** What a row says about its source. */
  ghost predicate Previews(row: PlanRow, source: SourceSnapshot, full: Rewriting, nameOverride: Option<Name>, target: TargetNames) {
    && row.sourceId == source.id && row.parentId == source.parentId && row.originalName == source.nativeName
    && row.status == StatusFor(row.originalName, row.proposedName, row.diagnostics)
    && row.trace <= full.steps && (!row.traceTruncated ==> row.trace == full.steps)
    && row.overrideApplied == (full.error.None? && nameOverride.Some?)
    && row.proposedName == (if row.overrideApplied then nameOverride.value else full.name)
    && row.diagnostics == (if full.error.Some? then [Diagnostic(CodeOf(full.error.value), true)]
                           else target.Validate(row.proposedName)
                                + if row.proposedName == source.nativeName then [Diagnostic(UnchangedName, false)] else [])
    && (!row.status.Blocked? ==> row.proposedName != [] && target.isText(row.proposedName))
  }

  /** The trace of a row tells how its name came about: it starts from the original name and each step goes on
      where the last one ended; if nothing is cut off, it ends with the name that the rules make. */
  lemma PreviewsAreChained(row: PlanRow, source: SourceSnapshot, rules: RulePipeline, values: SequenceValues, sourceIndex: nat,
                           nameOverride: Option<Name>, target: TargetNames)
    requires Previews(row, source, Rewritten(rules, target.display, source, values, sourceIndex, rules.count), nameOverride, target)
    ensures var full, shown := Rewritten(rules, target.display, source, values, sourceIndex, rules.count), target.display(source.nativeName);
            && Chained(row.trace, shown)
            && (!row.traceTruncated ==> target.display(full.name) == if row.trace == [] then shown else row.trace[|row.trace| - 1].after)
            && (!row.traceTruncated && full.error.None? ==> |row.trace| == ApplicableCount(rules, source, rules.count))
  {
    var full := Rewritten(rules, target.display, source, values, sourceIndex, rules.count);
    RewritingIsChained(rules, target.display, source, values, sourceIndex, rules.count);
    PrefixIsChained(row.trace, full.steps, target.display(source.nativeName));
  }

  /** What the status and the diagnostics of a row mean: it is blocked exactly for a diagnostic that blocks, a
      failing rule is the only one, and otherwise the name is checked as the target demands. */
  lemma PreviewMeans(row: PlanRow, source: SourceSnapshot, full: Rewriting, nameOverride: Option<Name>, target: TargetNames)
    requires Previews(row, source, full, nameOverride, target)
    ensures row.status.Blocked? <==> exists d :: d in row.diagnostics && d.blocked
    ensures !row.status.Blocked? ==> (row.status.Unchanged? <==> row.proposedName == source.nativeName)
    ensures full.error.Some? ==> row.diagnostics == [Diagnostic(match full.error.value
                                                                case UnsupportedText => UnsupportedEncoding
                                                                case SequenceExhausted => SequenceOverflow
                                                                case OutputTooLong => NameTooLong, true)]
    ensures full.error.None? ==>
              var name := row.proposedName;
              && (name == [] ==> Diagnostic(EmptyName, true) in row.diagnostics)
              && (name != [] && !target.isText(name) ==> Diagnostic(UnsupportedEncoding, true) in row.diagnostics)
              && (name != [] && target.isText(name) && target.windows ==> forall d :: d in target.validate(name) ==> d in row.diagnostics)
              && (name != [] && target.isText(name) && !target.windows ==> !row.status.Blocked?)
              && (name == source.nativeName ==> Diagnostic(UnchangedName, false) in row.diagnostics)
  {
  }

  method BuildRow(sourceIndex: nat, source: SourceSnapshot, rules: RulePipeline, values: SequenceValues,
                  nameOverride: Option<Name>, target: TargetNames, budget: TraceBudget)
    returns (row: PlanRow)
    requires budget.Valid()
    modifies budget
    ensures budget.Valid()
    ensures Previews(row, source, Rewritten(rules, target.display, source, values, sourceIndex, rules.count), nameOverride, target)
    ensures Traced(row.trace, row.traceTruncated, Rewritten(rules, target.display, source, values, sourceIndex, rules.count),
                   old(budget.remainingBytes), budget.remainingBytes)
  {
    var proposed, trace, truncated, error;
    ghost var full;
    proposed, trace, truncated, error, full := ApplyRules(sourceIndex, source, rules, values, target, budget);
    assert UnsealedAt(RewritingSeal, rules.count, 0);
    if error.Some? {
      return NewRow(source, proposed, trace, [Diagnostic(CodeOf(error.value), true)], false, truncated);
    }
    if nameOverride.Some? {
      proposed := nameOverride.value;
    }
    var diagnostics := target.Validate(proposed);
    if proposed == source.nativeName {
      diagnostics := diagnostics + [Diagnostic(UnchangedName, false)];
    }
    row := NewRow(source, proposed, trace, diagnostics, nameOverride.Some?, truncated);
    if !row.status.Blocked? {
      forall d | d in target.Validate(proposed) ensures !d.blocked {
        assert d in diagnostics;
      }
    }
  }
}
