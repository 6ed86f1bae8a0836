/**
  The interpreter and the protocol's fold are the same semantics: on workflows
  that hand nothing off, executing a run synchronously gives the result of the
  uninterrupted fold with no verdicts yet, project memory included.
  */
module InterpreterFold {
  import opened Prelude
  import opened Json
  import opened Runs
  import opened Interpreter
  import P = RunProtocol

  /** No step starts another run. */
  predicate Local(steps: seq<Step>) {
    forall i | 0 <= i < |steps| :: !steps[i].tool.Handoff?
  }

  function ConfigOf(o: Oracle, w: World, id: nat): P.Config
    requires Valid(w) && id < |w.runs|
  {
    P.Config(StepsOf(w, id), o, w.secrets, ProjectOf(w, id), w.runs[id].input, w.runs[id].maxSteps, w.runs[id].role)
  }

  /** The retry loop of a local tool is one step of the fold. */
  lemma {:induction false} AttemptsAreLocal(o: Oracle, now: int, w: World, id: nat, index: nat, value: Value, attempt: nat)
    requires Valid(w) && id < |w.runs| && index < |StepsOf(w, id)| && !StepsOf(w, id)[index].tool.Handoff?
    requires attempt <= Retries(StepsOf(w, id)[index])
    ensures var step := StepsOf(w, id)[index];
      Attempts(o, now, w, id, index, value, attempt)
      == (w.(memory := LocalMemory(ProjectOf(w, id), w.memory, step.tool, value)),
          FirstSuccess((a: nat) => LocalOutcome(o, ProjectOf(w, id), w.secrets, w.memory, step.tool, value, a),
                       attempt, Retries(step)))
    decreases 6 - attempt
  {
    var tool := StepsOf(w, id)[index].tool;
    if !tool.MemoryWrite? {
      assert w.(memory := LocalMemory(ProjectOf(w, id), w.memory, tool, value)) == w;
      if attempt < Retries(StepsOf(w, id)[index]) {
        AttemptsAreLocal(o, now, w, id, index, value, attempt + 1);
      }
    }
  }

  lemma NextSlotFree(row: Row, index: nat)
    requires index == |row.spans| && forall i | 0 <= i < |row.spans| :: row.spans[i].index == i
    ensures SpanFree(row, index)
  {
  }

  /** Running, with a span for every step so far. */
  ghost predicate Clean(row: Row, index: nat) {
    && row.status == Running && row.error == None && |row.spans| == index
    && forall i | 0 <= i < |row.spans| :: row.spans[i].index == i
  }

  lemma {:induction false} LocalTurn(o: Oracle, now: int, w: World, id: nat, index: nat, value: Value, cfg: P.Config)
    requires Valid(w) && id < |w.runs| && Local(StepsOf(w, id)) && Clean(w.runs[id], index) && cfg == ConfigOf(o, w, id)
    requires P.Gated(cfg, index) && !cfg.steps[index].tool.Approval?
    ensures var w1 := w.(memory := P.StepMemory(cfg, w.memory, index, value));
      Turn(o, now, w, id, index, value)
      == Record(w1, id, index, cfg.steps[index], value, P.StepOutcome(cfg, w.memory, index, value))
  {
    AttemptsAreLocal(o, now, w, id, index, value, 0);
  }

  lemma {:induction false} LoopFinishes(o: Oracle, now: int, w: World, id: nat, index: nat, value: Value, cfg: P.Config)
    requires Valid(w) && id < |w.runs| && Clean(w.runs[id], index) && cfg == ConfigOf(o, w, id) && index >= |cfg.steps|
    ensures var w' := RunSteps(o, now, w, id, index, value);
      P.FinalOf(w'.runs[id], w'.memory)
      == P.Fold(cfg, map[], w.memory, index, value, w.runs[id].output, w.runs[id].spans)
  {
  }

  lemma {:induction false} LoopStops(o: Oracle, now: int, w: World, id: nat, index: nat, value: Value, cfg: P.Config)
    requires Valid(w) && id < |w.runs| && Clean(w.runs[id], index) && cfg == ConfigOf(o, w, id) && index < |cfg.steps|
    requires !P.Gated(cfg, index)
    ensures var w' := RunSteps(o, now, w, id, index, value);
      P.FinalOf(w'.runs[id], w'.memory)
      == P.Fold(cfg, map[], w.memory, index, value, w.runs[id].output, w.runs[id].spans)
  {
    var row := w.runs[id];
    var error := if index >= row.maxSteps then BudgetExceeded else PermissionDenied;
    assert Turn(o, now, w, id, index, value) == (SetRow(w, id, StopRow(row, error)), None);
  }

  lemma {:induction false} LoopPauses(o: Oracle, now: int, w: World, id: nat, index: nat, value: Value, cfg: P.Config)
    requires Valid(w) && id < |w.runs| && Clean(w.runs[id], index) && cfg == ConfigOf(o, w, id)
    requires P.Gated(cfg, index) && cfg.steps[index].tool.Approval?
    ensures var w' := RunSteps(o, now, w, id, index, value);
      P.FinalOf(w'.runs[id], w'.memory)
      == P.Fold(cfg, map[], w.memory, index, value, w.runs[id].output, w.runs[id].spans)
  {
    var row := w.runs[id];
    NextSlotFree(row, index);
    var paused := PauseRow(WithSpan(row, WaitingSpan(index, cfg.steps[index], value)), index, cfg.steps[index].tool, value, now);
    assert Turn(o, now, w, id, index, value) == (SetRow(w, id, paused), None);
  }

  lemma {:induction false} LoopFails(o: Oracle, now: int, w: World, id: nat, index: nat, value: Value, cfg: P.Config,
                                     error: Error)
    requires Valid(w) && id < |w.runs| && Local(StepsOf(w, id)) && Clean(w.runs[id], index) && cfg == ConfigOf(o, w, id)
    requires P.Gated(cfg, index) && !cfg.steps[index].tool.Approval?
    requires P.StepOutcome(cfg, w.memory, index, value) == Err(error)
    ensures var w' := RunSteps(o, now, w, id, index, value);
      P.FinalOf(w'.runs[id], w'.memory)
      == P.Fold(cfg, map[], w.memory, index, value, w.runs[id].output, w.runs[id].spans)
  {
    NextSlotFree(w.runs[id], index);
    LocalTurn(o, now, w, id, index, value, cfg);
  }

  /** A local step that succeeds leaves a clean run one step further. */
  lemma {:induction false} LoopAdvances(o: Oracle, now: int, w: World, id: nat, index: nat, value: Value, cfg: P.Config,
                                        output: Value)
    requires Valid(w) && id < |w.runs| && Local(StepsOf(w, id)) && Clean(w.runs[id], index) && cfg == ConfigOf(o, w, id)
    requires P.Gated(cfg, index) && !cfg.steps[index].tool.Approval?
    requires P.StepOutcome(cfg, w.memory, index, value) == Ok(output)
    ensures var (w1, result) := Turn(o, now, w, id, index, value);
      && result == Some(output) && w1.memory == P.StepMemory(cfg, w.memory, index, value)
      && w1.runs[id] == AdvanceRow(WithSpan(w.runs[id], CompletedSpan(index, cfg.steps[index], value, output)), index, output)
      && w1.workflows == w.workflows && w1.secrets == w.secrets
  {
    NextSlotFree(w.runs[id], index);
    LocalTurn(o, now, w, id, index, value, cfg);
  }

  /** The step loop computes the fold, from any step on. */
  lemma {:induction false} LoopIsFold(o: Oracle, now: int, w: World, id: nat, index: nat, value: Value)
    requires Valid(w) && id < |w.runs| && Local(StepsOf(w, id)) && Clean(w.runs[id], index)
    ensures var w' := RunSteps(o, now, w, id, index, value);
      P.FinalOf(w'.runs[id], w'.memory)
      == P.Fold(ConfigOf(o, w, id), map[], w.memory, index, value, w.runs[id].output, w.runs[id].spans)
    decreases StepsLeft(w, id, index)
  {
    var cfg := ConfigOf(o, w, id);
    if index >= |cfg.steps| {
      LoopFinishes(o, now, w, id, index, value, cfg);
    } else if !P.Gated(cfg, index) {
      LoopStops(o, now, w, id, index, value, cfg);
    } else if cfg.steps[index].tool.Approval? {
      LoopPauses(o, now, w, id, index, value, cfg);
    } else {
      match P.StepOutcome(cfg, w.memory, index, value)
      case Err(error) => LoopFails(o, now, w, id, index, value, cfg, error);
      case Ok(output) =>
        LoopAdvances(o, now, w, id, index, value, cfg, output);
        LoopUnfold(o, now, w, id, index, value);
        var w1 := Turn(o, now, w, id, index, value).0;
        assert ConfigOf(o, w1, id) == cfg;
        LoopIsFold(o, now, w1, id, index + 1, output);
    }
  }

  function ConfigFor(o: Oracle, w: World, workflow: int, input: Value, maxSteps: int, role: string): P.Config
    requires workflow in w.workflows
  {
    P.Config(w.workflows[workflow].steps, o, w.secrets, w.workflows[workflow].project, input, maxSteps, role)
  }

  lemma {:induction false} ExecutionIsFold(o: Oracle, now: int, w: World, workflow: int, input: Value, maxSteps: int,
                                           role: string)
    requires Valid(w) && workflow in w.workflows && Local(w.workflows[workflow].steps)
    ensures var w' := StartRun(o, now, w, workflow, input, None, maxSteps, role).0;
      P.FinalOf(w'.runs[|w.runs|], w'.memory)
      == P.Uninterrupted(ConfigFor(o, w, workflow, input, maxSteps, role), w.memory, map[])
  {
    StartRunEntersLoop(o, now, w, workflow, input, None, maxSteps, role);
    var w1 := Started(w, workflow, input, None, maxSteps, role);
    LoopIsFold(o, now, w1, |w.runs|, 0, input);
  }

  /** Rows with a span for every step before the one they name. */
  ghost predicate Resumable(row: Row) {
    && row.error == None && |row.spans| == row.currentStep
    && forall i | 0 <= i < |row.spans| :: row.spans[i].index == i
  }

  /** Executing a run that was queued or paused goes on where it left off: it gives the
      fold from the step its row names. */
  lemma {:induction false} ExecuteIsFold(o: Oracle, now: int, w: World, id: nat)
    requires Valid(w) && id < |w.runs| && Local(StepsOf(w, id)) && Resumable(w.runs[id])
    ensures w.runs[id].status == Cancelled ==> Execute(o, now, w, id) == w
    ensures w.runs[id].status != Cancelled ==>
      var row, w' := w.runs[id], Execute(o, now, w, id);
      P.FinalOf(w'.runs[id], w'.memory)
      == P.Fold(ConfigOf(o, w, id), map[], w.memory, row.currentStep, if row.currentStep == 0 then row.input else row.output,
                row.output, row.spans)
  {
    var row := w.runs[id];
    if row.status != Cancelled {
      var w1 := SetRow(w, id, row.(status := Running));
      LoopIsFold(o, now, w1, id, row.currentStep, CurrentValue(row));
      assert ConfigOf(o, w1, id) == ConfigOf(o, w, id);
    }
  }

  /** Verdicts on steps that are over do not matter any more. */
  lemma {:induction false} FoldForgets(cfg: P.Config, log: map<nat, P.Verdict>, memory: Memory, index: nat, value: Value,
                                       output: Value, spans: seq<Span>)
    requires forall i | i in log :: i < index
    ensures P.Fold(cfg, log, memory, index, value, output, spans) == P.Fold(cfg, map[], memory, index, value, output, spans)
    decreases |cfg.steps| - index
  {
    if index < |cfg.steps| && P.Gated(cfg, index) && !cfg.steps[index].tool.Approval? {
      match P.StepOutcome(cfg, memory, index, value)
      case Ok(result) =>
        FoldForgets(cfg, log, P.StepMemory(cfg, memory, index, value), index + 1, result, result,
                    spans + [CompletedSpan(index, cfg.steps[index], value, result)]);
      case Err(_) =>
    }
  }

  /** Waiting for the approval of the step it names. */
  ghost predicate WaitsAt(row: Row, steps: seq<Step>, k: nat) {
    var i := row.currentStep;
    && row.status == WaitingApproval && row.error == None
    && i < |steps| && steps[i].tool.Approval? && |row.spans| == i + 1
    && (forall j | 0 <= j < |row.spans| :: row.spans[j].index == j)
    && row.spans[i] == WaitingSpan(i, steps[i], row.output)
    && k < |row.approvals| && row.approvals[k].stepIndex == i
  }

  /** Approving a waiting run executes the rest of it: what comes out is the fold with
      that verdict on the step it waited at. */
  lemma {:induction false} ApprovalContinues(o: Oracle, now: int, w: World, id: nat, k: nat, decision: Decision, role: string)
    requires Valid(w) && id < |w.runs| && Local(StepsOf(w, id)) && WaitsAt(w.runs[id], StepsOf(w, id), k)
    requires DecisionOutcome(w.runs[id], k, decision, role, now) == Resumed
    ensures var row := w.runs[id];
      var w' := Execute(o, now, SetRow(w, id, DecideRow(row, k, decision, role, now)), id);
      P.FinalOf(w'.runs[id], w'.memory)
      == P.FoldApproval(ConfigOf(o, w, id), map[row.currentStep := P.Given(decision)], w.memory, row.currentStep, row.output,
                        row.spans[..row.currentStep])
  {
    var row, i, cfg := w.runs[id], w.runs[id].currentStep, ConfigOf(o, w, id);
    var decided := DecideRow(row, k, decision, role, now);
    var result := if decision.edited.Some? then decision.edited.value else row.output;
    DecidedRow(row, StepsOf(w, id), k, decision, role, now, decided, result);
    var w1 := SetRow(w, id, decided);
    ExecuteIsFold(o, now, w1, id);
    assert ConfigOf(o, w1, id) == cfg;
    FoldForgets(cfg, map[i := P.Given(decision)], w.memory, i + 1, result, result, decided.spans);
  }

  lemma DecidedRow(row: Row, steps: seq<Step>, k: nat, decision: Decision, role: string, now: int, decided: Row, result: Value)
    requires WaitsAt(row, steps, k) && DecisionOutcome(row, k, decision, role, now) == Resumed
    requires decided == DecideRow(row, k, decision, role, now)
    requires result == if decision.edited.Some? then decision.edited.value else row.output
    ensures Resumable(decided) && decided.status == Running && decided.currentStep == row.currentStep + 1
    ensures decided.output == result && decided.input == row.input
    ensures decided.spans == row.spans[..row.currentStep] + [CompletedSpan(row.currentStep, steps[row.currentStep], row.output, result)]
  {
  }
}
