/**
  What the record of a run says about its steps: a description of the result by the
  fields of the steps, with no reference to how it is computed.  The fold, and with
  it every history of a run and every synchronous start, satisfies it and nothing
  else does.
  */
module RunTrace {
  import opened Prelude
  import opened Json
  import opened Runs
  import opened RunProtocol
  import R = RunRefinement
  import I = Interpreter
  import InterpreterFold

  /******* One step and its attempts *******/

  /** Attempt 0 is always made; up to five more if the step asks for retries. */
  ghost predicate MayTry(step: Step, attempt: nat) {
    attempt == 0 || (attempt <= 5 && attempt <= step.retries)
  }

  function Attempt(cfg: Config, memory: Memory, i: nat, value: Value, attempt: nat): Outcome
    requires i < |cfg.steps|
  {
    LocalOutcome(cfg.oracle, cfg.project, cfg.secrets, memory, cfg.steps[i].tool, value, attempt)
  }

  /** All attempts before `a` fail, and `a` succeeds or is the last. */
  ghost predicate EndsAt(cfg: Config, memory: Memory, i: nat, value: Value, a: nat)
    requires i < |cfg.steps|
  {
    && MayTry(cfg.steps[i], a)
    && (forall b: nat | b < a :: Attempt(cfg, memory, i, value, b).Err?)
    && (Attempt(cfg, memory, i, value, a).Ok? || !MayTry(cfg.steps[i], a + 1))
  }

  /** The outcome of a step: that of the attempt its retries end at. */
  ghost predicate Gives(cfg: Config, memory: Memory, i: nat, value: Value, outcome: Outcome)
    requires i < |cfg.steps|
  {
    exists a: nat :: EndsAt(cfg, memory, i, value, a) && Attempt(cfg, memory, i, value, a) == outcome
  }

  lemma StepGivesExactly(cfg: Config, memory: Memory, i: nat, value: Value, outcome: Outcome)
    requires i < |cfg.steps|
    ensures StepOutcome(cfg, memory, i, value) == outcome <==> Gives(cfg, memory, i, value, outcome)
  {
    var a := StepEnds(cfg, memory, i, value);
    if Gives(cfg, memory, i, value, outcome) {
      var b: nat :| EndsAt(cfg, memory, i, value, b) && Attempt(cfg, memory, i, value, b) == outcome;
      EndsOnce(cfg, memory, i, value, a, b);
    }
  }

  lemma EndsOnce(cfg: Config, memory: Memory, i: nat, value: Value, a: nat, b: nat)
    requires i < |cfg.steps| && EndsAt(cfg, memory, i, value, a) && EndsAt(cfg, memory, i, value, b)
    ensures a == b
  {
  }

  /** Where the retry loop stops. */
  lemma StepEnds(cfg: Config, memory: Memory, i: nat, value: Value) returns (a: nat)
    requires i < |cfg.steps|
    ensures EndsAt(cfg, memory, i, value, a) && StepOutcome(cfg, memory, i, value) == Attempt(cfg, memory, i, value, a)
  {
    var results := (attempt: nat) =>
      LocalOutcome(cfg.oracle, cfg.project, cfg.secrets, memory, cfg.steps[i].tool, value, attempt);
    a := LastTried(results, 0, Retries(cfg.steps[i]));
    forall b: nat | b < a
      ensures Attempt(cfg, memory, i, value, b).Err?
    { assert results(b).Err?; }
  }

  lemma {:induction false} LastTried(results: nat -> Outcome, attempt: nat, retries: nat) returns (a: nat)
    requires attempt <= retries
    ensures attempt <= a <= retries && FirstSuccess(results, attempt, retries) == results(a)
    ensures forall b: nat | attempt <= b < a :: results(b).Err?
    ensures results(a).Ok? || a == retries
    decreases retries - attempt
  {
    if results(attempt).Ok? || attempt == retries {
      a := attempt;
    } else {
      a := LastTried(results, attempt + 1, retries);
    }
  }

  /******* The whole record *******/

  /** `allowed_roles`, or admin and operator where a step names none. */
  ghost predicate MayUse(step: Step, role: string) {
    match step.allowedRoles
    case None => role == "admin" || role == "operator"
    case Some(roles) => role in roles
  }

  /** The project's memory when step `k` is reached: what the steps before it wrote. */
  function MemoryAt(cfg: Config, memory: Memory, spans: seq<Span>, k: nat): Memory
    requires k <= |spans| && k <= |cfg.steps|
  {
    if k == 0 then memory
    else LocalMemory(cfg.project, MemoryAt(cfg, memory, spans, k - 1), cfg.steps[k - 1].tool, spans[k - 1].input)
  }

  /** The value that reaches step `k`, and the output of the run until then. */
  function ValueAt(cfg: Config, spans: seq<Span>, k: nat): Value
    requires k <= |spans|
  {
    if k == 0 then cfg.input else spans[k - 1].output
  }

  function OutputAt(spans: seq<Span>, k: nat): Value
    requires k <= |spans|
  {
    if k == 0 then Null else spans[k - 1].output
  }

  ghost predicate ApprovedWith(log: map<nat, Verdict>, i: nat, value: Value, output: Value) {
    && i in log && log[i].Given? && log[i].decision.Approve?
    && output == if log[i].decision.edited.Some? then log[i].decision.edited.value else value
  }

  /** Why step `i`, reached with this memory and value, has the span it has. */
  ghost predicate SpanExplained(cfg: Config, log: map<nat, Verdict>, now: Memory, value: Value, s: Span, i: nat)
    requires i < |cfg.steps|
  {
    && i < cfg.maxSteps && MayUse(cfg.steps[i], cfg.role)
    && s.index == i && s.name == cfg.steps[i].name && s.input == value
    && match s.status
       case SpanCompleted =>
         && s.error == None
         && (if cfg.steps[i].tool.Approval? then ApprovedWith(log, i, value, s.output)
             else Gives(cfg, now, i, value, Ok(s.output)))
       case SpanFailed =>
         && !cfg.steps[i].tool.Approval? && s.output == Null && s.error.Some?
         && Gives(cfg, now, i, value, Err(s.error.value))
       case SpanWaiting =>
         && cfg.steps[i].tool.Approval? && s.output == value && s.error == None
         && !(i in log && log[i].Given? && log[i].decision.Approve?)
  }

  /** The spans up to `i` account for the i-th. */
  ghost predicate ExplainedAt(cfg: Config, log: map<nat, Verdict>, memory: Memory, spans: seq<Span>, i: nat)
    requires i < |spans| && i < |cfg.steps|
  {
    SpanExplained(cfg, log, MemoryAt(cfg, memory, spans, i), ValueAt(cfg, spans, i), spans[i], i)
  }

  /** How a run ends that waits at step `i`. */
  ghost predicate WaitExplained(log: map<nat, Verdict>, i: nat, value: Value, f: Final) {
    && f.output == value
    && if i in log && log[i].TimedOut? then f.status == Rejected && f.error == Some(ApprovalExpired)
       else if i in log && log[i].Given? then
         && log[i].decision.Reject? && f.status == Rejected
         && f.error == Some(RejectedWith(if log[i].decision.note == "" then "approval rejected" else log[i].decision.note))
       else f.status == WaitingApproval && f.error == None
  }

  /** How a run ends after `n` completed steps. */
  ghost predicate StopExplained(cfg: Config, n: nat, f: Final)
    requires n <= |cfg.steps| && n <= |f.spans|
  {
    if n == |cfg.steps| then f.status == Completed && f.output == ValueAt(cfg, f.spans, n) && f.error == None
    else
      && f.status == Failed && f.output == OutputAt(f.spans, n)
      && (n >= cfg.maxSteps || !MayUse(cfg.steps[n], cfg.role))
      && f.error == Some(if n >= cfg.maxSteps then BudgetExceeded else PermissionDenied)
  }

  ghost predicate EndExplained(cfg: Config, log: map<nat, Verdict>, f: Final)
    requires |f.spans| <= |cfg.steps|
  {
    var n := |f.spans|;
    if n == 0 || f.spans[n - 1].status == SpanCompleted then StopExplained(cfg, n, f)
    else if f.spans[n - 1].status == SpanFailed then
      f.status == Failed && f.output == OutputAt(f.spans, n - 1) && f.error == f.spans[n - 1].error
    else WaitExplained(log, n - 1, f.spans[n - 1].input, f)
  }

  /** A result that the steps, the verdicts and the memory account for. */
  ghost predicate Explained(cfg: Config, log: map<nat, Verdict>, memory: Memory, f: Final) {
    && |f.spans| <= |cfg.steps|
    && (forall i | 0 <= i < |f.spans| :: ExplainedAt(cfg, log, memory, f.spans, i))
    && (forall i | 0 <= i < |f.spans| - 1 :: f.spans[i].status == SpanCompleted)
    && EndExplained(cfg, log, f)
    && f.memory == MemoryAt(cfg, memory, f.spans, |f.spans|)
  }

  /** The first `k` steps are behind the fold, and accounted for. */
  ghost predicate Passed(cfg: Config, log: map<nat, Verdict>, memory: Memory, spans: seq<Span>) {
    && |spans| <= |cfg.steps|
    && forall i | 0 <= i < |spans| :: spans[i].status == SpanCompleted && ExplainedAt(cfg, log, memory, spans, i)
  }

  lemma {:induction false} MemoryOfPrefix(cfg: Config, memory: Memory, spans: seq<Span>, more: seq<Span>, k: nat)
    requires k <= |spans| && k <= |cfg.steps| && spans <= more
    ensures MemoryAt(cfg, memory, more, k) == MemoryAt(cfg, memory, spans, k)
  {
    if k > 0 {
      MemoryOfPrefix(cfg, memory, spans, more, k - 1);
    }
  }

  lemma ExplainedPrefix(cfg: Config, log: map<nat, Verdict>, memory: Memory, spans: seq<Span>, more: seq<Span>, i: nat)
    requires i < |spans| && i < |cfg.steps| && spans <= more
    ensures ExplainedAt(cfg, log, memory, more, i) <==> ExplainedAt(cfg, log, memory, spans, i)
  {
    MemoryOfPrefix(cfg, memory, spans, more, i);
  }

  lemma {:induction false} ExplainedWith(cfg: Config, log: map<nat, Verdict>, memory: Memory, spans: seq<Span>, span: Span,
                                         more: seq<Span>, i: nat)
    requires i <= |spans| < |cfg.steps| && more == spans + [span]
    requires if i < |spans| then ExplainedAt(cfg, log, memory, spans, i)
             else SpanExplained(cfg, log, MemoryAt(cfg, memory, spans, i), ValueAt(cfg, spans, i), span, i)
    ensures ExplainedAt(cfg, log, memory, more, i)
  {
    if i < |spans| {
      ExplainedPrefix(cfg, log, memory, spans, more, i);
    } else {
      MemoryOfPrefix(cfg, memory, spans, more, i);
    }
  }

  lemma {:induction false} MemoryWith(cfg: Config, memory: Memory, spans: seq<Span>, span: Span, more: seq<Span>)
    requires |spans| < |cfg.steps| && more == spans + [span]
    ensures MemoryAt(cfg, memory, more, |more|)
         == LocalMemory(cfg.project, MemoryAt(cfg, memory, spans, |spans|), cfg.steps[|spans|].tool, span.input)
  {
    MemoryOfPrefix(cfg, memory, spans, more, |spans|);
  }

  /** A completed span takes the fold one step further. */
  lemma {:induction false} StepPassed(cfg: Config, log: map<nat, Verdict>, memory: Memory, spans: seq<Span>, span: Span,
                                      more: seq<Span>)
    requires Passed(cfg, log, memory, spans) && |spans| < |cfg.steps| && more == spans + [span]
    requires SpanExplained(cfg, log, MemoryAt(cfg, memory, spans, |spans|), ValueAt(cfg, spans, |spans|), span, |spans|)
    requires span.status == SpanCompleted
    ensures Passed(cfg, log, memory, more)
  {
    forall i | 0 <= i <= |spans|
      ensures ExplainedAt(cfg, log, memory, more, i)
    { ExplainedWith(cfg, log, memory, spans, span, more, i); }
  }

  /** A span that is not completed ends the record. */
  lemma {:induction false} LastSpan(cfg: Config, log: map<nat, Verdict>, memory: Memory, spans: seq<Span>, span: Span, f: Final)
    requires Passed(cfg, log, memory, spans) && |spans| < |cfg.steps| && f.spans == spans + [span]
    requires SpanExplained(cfg, log, MemoryAt(cfg, memory, spans, |spans|), ValueAt(cfg, spans, |spans|), span, |spans|)
    requires span.status != SpanCompleted && EndExplained(cfg, log, f)
    requires f.memory == MemoryAt(cfg, memory, f.spans, |f.spans|)
    ensures Explained(cfg, log, memory, f)
  {
    forall i | 0 <= i <= |spans|
      ensures ExplainedAt(cfg, log, memory, f.spans, i)
    { ExplainedWith(cfg, log, memory, spans, span, f.spans, i); }
  }

  lemma ToolSpanExplained(cfg: Config, log: map<nat, Verdict>, i: nat, now: Memory, value: Value, outcome: Outcome)
    requires i < |cfg.steps| && Gated(cfg, i) && !cfg.steps[i].tool.Approval? && StepOutcome(cfg, now, i, value) == outcome
    ensures SpanExplained(cfg, log, now, value, OutcomeSpan(i, cfg.steps[i], value, outcome), i)
  {
    StepGivesExactly(cfg, now, i, value, outcome);
  }

  /** From explained steps on, the fold ends explained. */
  lemma {:induction false} FoldExplained(cfg: Config, log: map<nat, Verdict>, memory: Memory, spans: seq<Span>, now: Memory,
                                         value: Value, output: Value, f: Final)
    requires Passed(cfg, log, memory, spans) && now == MemoryAt(cfg, memory, spans, |spans|)
    requires value == ValueAt(cfg, spans, |spans|) && output == OutputAt(spans, |spans|)
    requires f == Fold(cfg, log, now, |spans|, value, output, spans)
    ensures Explained(cfg, log, memory, f)
    decreases |cfg.steps| - |spans|
  {
    var i := |spans|;
    if i < |cfg.steps| && Gated(cfg, i) {
      if !cfg.steps[i].tool.Approval? {
        match StepOutcome(cfg, now, i, value)
        case Ok(result) =>
          var more := StepAdvances(cfg, log, memory, spans, now, value, output, result);
          FoldExplained(cfg, log, memory, more, StepMemory(cfg, now, i, value), result, result, f);
        case Err(error) =>
          FailureExplained(cfg, log, memory, spans, now, value, error, FailedSpan(i, cfg.steps[i], value, error), f);
      } else if i in log && log[i].Given? && log[i].decision.Approve? {
        var result := if log[i].decision.edited.Some? then log[i].decision.edited.value else value;
        var more := ApprovalAdvances(cfg, log, memory, spans, now, value, output, result);
        FoldExplained(cfg, log, memory, more, now, result, result, f);
      } else {
        WaitingFold(cfg, log, i, now, value, spans, f);
        WaitingExplained(cfg, log, memory, spans, now, value, WaitingSpan(i, cfg.steps[i], value), f);
      }
    }
  }

  /** A tool that succeeds takes the fold one explained step further. */
  lemma StepAdvances(cfg: Config, log: map<nat, Verdict>, memory: Memory, spans: seq<Span>, now: Memory, value: Value, output: Value,
                     result: Value) returns (more: seq<Span>)
    requires Passed(cfg, log, memory, spans) && now == MemoryAt(cfg, memory, spans, |spans|) && value == ValueAt(cfg, spans, |spans|)
    requires |spans| < |cfg.steps| && Gated(cfg, |spans|) && !cfg.steps[|spans|].tool.Approval?
    requires StepOutcome(cfg, now, |spans|, value) == Ok(result)
    ensures |more| == |spans| + 1 && Passed(cfg, log, memory, more)
    ensures ValueAt(cfg, more, |more|) == OutputAt(more, |more|) == result
    ensures MemoryAt(cfg, memory, more, |more|) == StepMemory(cfg, now, |spans|, value)
    ensures Fold(cfg, log, now, |spans|, value, output, spans)
         == Fold(cfg, log, StepMemory(cfg, now, |spans|, value), |more|, result, result, more)
  {
    var span := CompletedSpan(|spans|, cfg.steps[|spans|], value, result);
    more := spans + [span];
    ToolSpanExplained(cfg, log, |spans|, now, value, Ok(result));
    MemoryWith(cfg, memory, spans, span, more);
    StepPassed(cfg, log, memory, spans, span, more);
  }

  /** So does an approval that was given. */
  lemma ApprovalAdvances(cfg: Config, log: map<nat, Verdict>, memory: Memory, spans: seq<Span>, now: Memory, value: Value,
                         output: Value, result: Value) returns (more: seq<Span>)
    requires Passed(cfg, log, memory, spans) && now == MemoryAt(cfg, memory, spans, |spans|) && value == ValueAt(cfg, spans, |spans|)
    requires |spans| < |cfg.steps| && Gated(cfg, |spans|) && cfg.steps[|spans|].tool.Approval?
    requires ApprovedWith(log, |spans|, value, result)
    ensures |more| == |spans| + 1 && Passed(cfg, log, memory, more)
    ensures ValueAt(cfg, more, |more|) == OutputAt(more, |more|) == result
    ensures MemoryAt(cfg, memory, more, |more|) == now
    ensures Fold(cfg, log, now, |spans|, value, output, spans) == Fold(cfg, log, now, |more|, result, result, more)
  {
    var span := CompletedSpan(|spans|, cfg.steps[|spans|], value, result);
    more := spans + [span];
    ApprovedSpanExplained(cfg, log, |spans|, now, value, result);
    MemoryWith(cfg, memory, spans, span, more);
    StepPassed(cfg, log, memory, spans, span, more);
    ApprovedFold(cfg, log, |spans|, now, value, output, spans, result, more);
  }

  lemma ApprovedSpanExplained(cfg: Config, log: map<nat, Verdict>, i: nat, now: Memory, value: Value, result: Value)
    requires i < |cfg.steps| && Gated(cfg, i) && cfg.steps[i].tool.Approval? && ApprovedWith(log, i, value, result)
    ensures SpanExplained(cfg, log, now, value, CompletedSpan(i, cfg.steps[i], value, result), i)
  {
  }

  lemma ApprovedFold(cfg: Config, log: map<nat, Verdict>, i: nat, now: Memory, value: Value, output: Value, spans: seq<Span>,
                     result: Value, more: seq<Span>)
    requires i < |cfg.steps| && Gated(cfg, i) && cfg.steps[i].tool.Approval? && ApprovedWith(log, i, value, result)
    requires more == spans + [CompletedSpan(i, cfg.steps[i], value, result)]
    ensures Fold(cfg, log, now, i, value, output, spans) == Fold(cfg, log, now, i + 1, result, result, more)
  {
  }

  lemma {:induction false} FailureExplained(cfg: Config, log: map<nat, Verdict>, memory: Memory, spans: seq<Span>,
                                            now: Memory, value: Value, error: Error, span: Span, f: Final)
    requires Passed(cfg, log, memory, spans) && now == MemoryAt(cfg, memory, spans, |spans|) && value == ValueAt(cfg, spans, |spans|)
    requires |spans| < |cfg.steps| && Gated(cfg, |spans|) && !cfg.steps[|spans|].tool.Approval?
    requires StepOutcome(cfg, now, |spans|, value) == Err(error) && span == FailedSpan(|spans|, cfg.steps[|spans|], value, error)
    requires f == Final(Failed, OutputAt(spans, |spans|), Some(error), spans + [span], StepMemory(cfg, now, |spans|, value))
    ensures Explained(cfg, log, memory, f)
  {
    ToolSpanExplained(cfg, log, |spans|, now, value, Err(error));
    MemoryWith(cfg, memory, spans, span, spans + [span]);
    LastSpan(cfg, log, memory, spans, span, f);
  }

  lemma {:induction false} WaitingExplained(cfg: Config, log: map<nat, Verdict>, memory: Memory, spans: seq<Span>,
                                            now: Memory, value: Value, span: Span, f: Final)
    requires Passed(cfg, log, memory, spans) && now == MemoryAt(cfg, memory, spans, |spans|) && value == ValueAt(cfg, spans, |spans|)
    requires |spans| < |cfg.steps| && Gated(cfg, |spans|) && cfg.steps[|spans|].tool.Approval?
    requires !(|spans| in log && log[|spans|].Given? && log[|spans|].decision.Approve?)
    requires span == WaitingSpan(|spans|, cfg.steps[|spans|], value) && f.spans == spans + [span] && f.memory == now
    requires WaitExplained(log, |spans|, value, f)
    ensures Explained(cfg, log, memory, f)
  {
    WaitingSpanExplained(cfg, log, |spans|, now, value);
    MemoryWith(cfg, memory, spans, span, f.spans);
    LastSpan(cfg, log, memory, spans, span, f);
  }

  lemma WaitingSpanExplained(cfg: Config, log: map<nat, Verdict>, i: nat, now: Memory, value: Value)
    requires i < |cfg.steps| && Gated(cfg, i) && cfg.steps[i].tool.Approval?
    requires !(i in log && log[i].Given? && log[i].decision.Approve?)
    ensures SpanExplained(cfg, log, now, value, WaitingSpan(i, cfg.steps[i], value), i)
  {
  }

  lemma {:induction false} WaitingFold(cfg: Config, log: map<nat, Verdict>, i: nat, now: Memory, value: Value,
                                       spans: seq<Span>, f: Final)
    requires i < |cfg.steps| && !(i in log && log[i].Given? && log[i].decision.Approve?)
    requires f == FoldApproval(cfg, log, now, i, value, spans)
    ensures WaitExplained(log, i, value, f)
    ensures f.spans == spans + [WaitingSpan(i, cfg.steps[i], value)] && f.memory == now
  {
  }

  /******* Nothing else is explained *******/

  /** The fold from step `i` of an explained result gives that result. */
  lemma {:induction false} ExplainedIsFold(cfg: Config, log: map<nat, Verdict>, memory: Memory, f: Final, i: nat)
    requires Explained(cfg, log, memory, f) && i <= |f.spans|
    requires i > 0 ==> f.spans[i - 1].status == SpanCompleted
    ensures Fold(cfg, log, MemoryAt(cfg, memory, f.spans, i), i, ValueAt(cfg, f.spans, i), OutputAt(f.spans, i), f.spans[..i]) == f
    decreases |f.spans| - i
  {
    if i == |f.spans| {
      assert f.spans[..i] == f.spans;
    } else {
      var now := MemoryAt(cfg, memory, f.spans, i);
      assert ExplainedAt(cfg, log, memory, f.spans, i);
      assert f.spans[..i + 1] == f.spans[..i] + [f.spans[i]];
      if f.spans[i].status == SpanCompleted {
        CompletedFold(cfg, log, i, now, f.spans[i], OutputAt(f.spans, i), f.spans[..i], f.spans[..i + 1]);
        ExplainedIsFold(cfg, log, memory, f, i + 1);
      } else {
        assert f.spans[..i + 1] == f.spans;
        StoppedFold(cfg, log, i, now, f.spans[i], OutputAt(f.spans, i), f.spans[..i], f);
      }
    }
  }

  lemma CompletedFold(cfg: Config, log: map<nat, Verdict>, i: nat, now: Memory, s: Span, output: Value, spans: seq<Span>,
                      more: seq<Span>)
    requires i < |cfg.steps| && SpanExplained(cfg, log, now, s.input, s, i) && s.status == SpanCompleted && more == spans + [s]
    ensures Fold(cfg, log, now, i, s.input, output, spans)
         == Fold(cfg, log, StepMemory(cfg, now, i, s.input), i + 1, s.output, s.output, more)
  {
    assert s == CompletedSpan(i, cfg.steps[i], s.input, s.output);
    if cfg.steps[i].tool.Approval? {
      ApprovedFold(cfg, log, i, now, s.input, output, spans, s.output, more);
    } else {
      StepGivesExactly(cfg, now, i, s.input, Ok(s.output));
    }
  }

  lemma {:induction false} StoppedFold(cfg: Config, log: map<nat, Verdict>, i: nat, now: Memory, s: Span, output: Value,
                                       spans: seq<Span>, f: Final)
    requires i < |cfg.steps| && SpanExplained(cfg, log, now, s.input, s, i) && s.status != SpanCompleted
    requires f.spans == spans + [s] && f.memory == StepMemory(cfg, now, i, s.input)
    requires if s.status == SpanFailed then f.status == Failed && f.output == output && f.error == s.error
             else WaitExplained(log, i, s.input, f)
    ensures Fold(cfg, log, now, i, s.input, output, spans) == f
  {
    if s.status == SpanFailed {
      assert s == FailedSpan(i, cfg.steps[i], s.input, s.error.value);
      StepGivesExactly(cfg, now, i, s.input, Err(s.error.value));
    } else {
      assert s == WaitingSpan(i, cfg.steps[i], s.input);
    }
  }

  /** A result is that of the uninterrupted run if and only if its spans follow from
      the steps one by one, and its end from its last span. */
  lemma ResultExplainedExactly(cfg: Config, log: map<nat, Verdict>, memory: Memory, f: Final)
    ensures f == Uninterrupted(cfg, memory, log) <==> Explained(cfg, log, memory, f)
  {
    FoldExplained(cfg, log, memory, [], memory, cfg.input, Null, Uninterrupted(cfg, memory, log));
    if Explained(cfg, log, memory, f) {
      ExplainedIsFold(cfg, log, memory, f, 0);
      assert f.spans[..0] == [];
    }
  }

  /** So whatever happened to a run: when it rests, its steps account for what it says. */
  lemma {:induction false} RunsAreExplained(cfg: Config, memory: Memory, queued: bool, ls: seq<Label>)
    ensures var end := RunAll(cfg, Initial(cfg, memory, queued), ls);
      R.AtRest(end) ==> Explained(cfg, end.log, memory, FinalOf(end.row, end.memory))
  {
    R.InterruptionsDoNotMatter(cfg, memory, queued, ls);
    var end := RunAll(cfg, Initial(cfg, memory, queued), ls);
    ResultExplainedExactly(cfg, end.log, memory, FinalOf(end.row, end.memory));
  }

  /** And so do those of a run that is started and hands nothing off. */
  lemma {:induction false} StartsAreExplained(o: Oracle, now: int, w: I.World, workflow: int, input: Value, maxSteps: int,
                                              role: string)
    requires I.Valid(w) && workflow in w.workflows && InterpreterFold.Local(w.workflows[workflow].steps)
    ensures var w' := I.StartRun(o, now, w, workflow, input, None, maxSteps, role).0;
      Explained(InterpreterFold.ConfigFor(o, w, workflow, input, maxSteps, role), map[], w.memory,
                FinalOf(w'.runs[|w.runs|], w'.memory))
  {
    InterpreterFold.ExecutionIsFold(o, now, w, workflow, input, maxSteps, role);
    var w' := I.StartRun(o, now, w, workflow, input, None, maxSteps, role).0;
    ResultExplainedExactly(InterpreterFold.ConfigFor(o, w, workflow, input, maxSteps, role), map[], w.memory,
                           FinalOf(w'.runs[|w.runs|], w'.memory));
  }

  /** A run of one tool step: it completes with the output of the first attempt that
      succeeds among those its retries allow, or fails with the error of the last. */
  lemma OneStepRun(o: Oracle, now: int, w: I.World, workflow: int, step: Step, input: Value, maxSteps: int, role: string)
      returns (a: nat)
    requires I.Valid(w) && workflow in w.workflows && w.workflows[workflow].steps == [step]
    requires !step.tool.Handoff? && !step.tool.Approval? && maxSteps > 0 && MayUse(step, role)
    ensures a == 0 || (a <= 5 && a <= step.retries)
    ensures var call := (b: nat) => LocalOutcome(o, w.workflows[workflow].project, w.secrets, w.memory, step.tool, input, b);
      var row := I.StartRun(o, now, w, workflow, input, None, maxSteps, role).0.runs[|w.runs|];
      && (forall b: nat | b < a :: call(b).Err?)
      && (call(a).Ok? ==>
            row.status == Completed && row.output == call(a).value
            && row.spans == [Span(0, step.name, SpanCompleted, input, call(a).value, None)])
      && (call(a).Err? ==>
            && (a == 5 || a >= step.retries)
            && row.status == Failed && row.output == Null && row.error == Some(call(a).error)
            && row.spans == [Span(0, step.name, SpanFailed, input, Null, Some(call(a).error))])
  {
    var cfg := InterpreterFold.ConfigFor(o, w, workflow, input, maxSteps, role);
    InterpreterFold.ExecutionIsFold(o, now, w, workflow, input, maxSteps, role);
    a := StepEnds(cfg, w.memory, 0, input);
    forall b: nat | b < a
      ensures LocalOutcome(o, cfg.project, w.secrets, w.memory, step.tool, input, b).Err?
    { assert Attempt(cfg, w.memory, 0, input, b).Err?; }
    OneStepFold(cfg, w.memory, step, Attempt(cfg, w.memory, 0, input, a));
  }

  lemma OneStepFold(cfg: Config, memory: Memory, step: Step, outcome: Outcome)
    requires cfg.steps == [step] && !step.tool.Approval? && Gated(cfg, 0) && StepOutcome(cfg, memory, 0, cfg.input) == outcome
    ensures var f := Uninterrupted(cfg, memory, map[]);
      && f.spans == [OutcomeSpan(0, step, cfg.input, outcome)]
      && (outcome.Ok? ==> f.status == Completed && f.output == outcome.value)
      && (outcome.Err? ==> f.status == Failed && f.output == Null && f.error == Some(outcome.error))
  {
    LastStepFold(cfg, memory, 0, cfg.input, Null, [], outcome);
    assert [] + [OutcomeSpan(0, step, cfg.input, outcome)] == [OutcomeSpan(0, step, cfg.input, outcome)];
  }

  lemma {:induction false} LastStepFold(cfg: Config, memory: Memory, i: nat, value: Value, output: Value, spans: seq<Span>,
                                        outcome: Outcome)
    requires i + 1 == |cfg.steps| && !cfg.steps[i].tool.Approval? && Gated(cfg, i) && StepOutcome(cfg, memory, i, value) == outcome
    ensures var f := Fold(cfg, map[], memory, i, value, output, spans);
      && f.spans == spans + [OutcomeSpan(i, cfg.steps[i], value, outcome)]
      && (outcome.Ok? ==> f.status == Completed && f.output == outcome.value)
      && (outcome.Err? ==> f.status == Failed && f.output == output && f.error == Some(outcome.error))
  {
  }
}
