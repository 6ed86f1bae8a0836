/**
  The workflow interpreter over the whole database: runs, project memory and the
  child runs that handoffs create (`start_run`, `_execute`, `_apply_agent_tool`).
  Nothing interleaves here; see RunProtocol for that.  Builtin tools are an oracle
  of (tool, credential, value, attempt), and one clock reading serves a whole call.
  */
module Interpreter {
  import opened Prelude
  import opened Json
  import opened Runs

  datatype Workflow = Workflow(project: int, steps: seq<Step>)

  datatype World = World(workflows: map<int, Workflow>, runs: seq<Row>, memory: Memory, secrets: Secrets)

  /** Foreign keys: every run has a workflow, and a parent created before it. */
  ghost predicate Valid(w: World) {
    && ParentsFirst(w.runs)
    && forall id | 0 <= id < |w.runs| :: w.runs[id].workflow in w.workflows
  }

  ghost predicate ParentsFirst(runs: seq<Row>) {
    forall id | 0 <= id < |runs| :: runs[id].parent.Some? ==> runs[id].parent.value < id
  }

  /** `_workflow_ancestry`: the workflows of a run and of all its ancestors. */
  function Ancestry(runs: seq<Row>, id: nat): set<int>
    requires ParentsFirst(runs) && id < |runs|
    decreases id
  {
    {runs[id].workflow} + ParentAncestry(runs, runs[id].parent, id)
  }

  function ParentAncestry(runs: seq<Row>, parent: Option<nat>, below: nat): set<int>
    requires ParentsFirst(runs) && below <= |runs|
    decreases below, 0
  {
    match parent
    case None => {}
    case Some(p) => if p < below then Ancestry(runs, p) else {}
  }

  function Unvisited(w: World, id: nat): set<int>
    requires ParentsFirst(w.runs) && id < |w.runs|
  {
    w.workflows.Keys - Ancestry(w.runs, id)
  }

  /** What running `id` may change: that row, memory, and new rows. */
  ghost predicate Frame(w: World, w': World, id: nat)
    requires id < |w.runs|
  {
    && Valid(w') && w'.workflows == w.workflows && w'.secrets == w.secrets
    && |w.runs| <= |w'.runs|
    && (forall j | 0 <= j < |w.runs| && j != id :: w'.runs[j] == w.runs[j])
    && SameIdentity(w.runs[id], w'.runs[id])
  }

  ghost predicate SameIdentity(row: Row, row': Row) {
    && row'.workflow == row.workflow && row'.parent == row.parent && row'.input == row.input
    && row'.maxSteps == row.maxSteps && row'.role == row.role
  }

  /** New rows only. */
  ghost predicate Extended(w: World, w': World) {
    && Valid(w') && w'.workflows == w.workflows && w'.secrets == w.secrets && w.runs <= w'.runs
  }

  lemma {:induction false} AncestryStable(runs: seq<Row>, runs': seq<Row>, id: nat)
    requires ParentsFirst(runs) && ParentsFirst(runs') && id < |runs| <= |runs'|
    requires forall j | 0 <= j < |runs| :: runs'[j].workflow == runs[j].workflow && runs'[j].parent == runs[j].parent
    ensures Ancestry(runs', id) == Ancestry(runs, id)
    decreases id
  {
    if runs[id].parent.Some? {
      AncestryStable(runs, runs', runs[id].parent.value);
    }
  }

  lemma FrameKeepsUnvisited(w: World, w': World, id: nat)
    requires Valid(w) && id < |w.runs| && Frame(w, w', id)
    ensures Unvisited(w', id) == Unvisited(w, id)
  {
    AncestryStable(w.runs, w'.runs, id);
  }

  function SetRow(w: World, id: nat, row: Row): World
    requires id < |w.runs|
  {
    w.(runs := w.runs[id := row])
  }

  function StepsOf(w: World, id: nat): seq<Step>
    requires Valid(w) && id < |w.runs|
  {
    w.workflows[w.runs[id].workflow].steps
  }

  function ProjectOf(w: World, id: nat): int
    requires Valid(w) && id < |w.runs|
  {
    w.workflows[w.runs[id].workflow].project
  }

  /******* The interpreter *******/

  /** A parent must exist and belong to the same project. */
  predicate ParentFits(w: World, workflow: int, parent: Option<nat>)
    requires Valid(w) && workflow in w.workflows
  {
    parent.Some? ==> parent.value < |w.runs| && ProjectOf(w, parent.value) == w.workflows[workflow].project
  }

  /** `start_run` without an idempotency key, for immediate execution. */
  function StartRun(o: Oracle, now: int, w: World, workflow: int, input: Value, parent: Option<nat>, maxSteps: int,
                    role: string): (r: (World, Result<nat, Error>))
    requires Valid(w)
    ensures Extended(w, r.0)
    ensures r.1.Success? <==> workflow in w.workflows && ParentFits(w, workflow, parent)
    ensures r.1.Success? ==> r.1.value == |w.runs| < |r.0.runs|
    ensures r.1.Success? ==>
              SameIdentity(NewRow(workflow, parent, Running, input, maxSteps, role), r.0.runs[|w.runs|])
    ensures r.1.Failure? ==> r.0 == w
    decreases w.workflows.Keys - ({workflow} + ParentAncestry(w.runs, parent, |w.runs|)), 1, 0, 0, 0
  {
    if workflow !in w.workflows || (parent.Some? && parent.value >= |w.runs|) then (w, Failure(NotFound))
    else if parent.Some? && ProjectOf(w, parent.value) != w.workflows[workflow].project then (w, Failure(WrongProject))
    else
      var id := |w.runs|;
      var w1 := Started(w, workflow, input, parent, maxSteps, role);
      NewRowAncestry(w, w1, workflow, parent);
      (Execute(o, now, w1, id), Success(id))
  }

  lemma {:induction false} NewRowAncestry(w: World, w1: World, workflow: int, parent: Option<nat>)
    requires Valid(w) && (parent.Some? ==> parent.value < |w.runs|)
    requires |w1.runs| == |w.runs| + 1 && w.runs == w1.runs[..|w.runs|]
    requires w1.runs[|w.runs|].workflow == workflow && w1.runs[|w.runs|].parent == parent
    ensures ParentsFirst(w1.runs)
    ensures Ancestry(w1.runs, |w.runs|) == {workflow} + ParentAncestry(w.runs, parent, |w.runs|)
  {
    if parent.Some? {
      AncestryStable(w.runs, w1.runs, parent.value);
    }
  }

  function Started(w: World, workflow: int, input: Value, parent: Option<nat>, maxSteps: int, role: string): World {
    w.(runs := w.runs + [NewRow(workflow, parent, Running, input, maxSteps, role)])
  }

  /** A started run enters the step loop at once, with its own workflow visited. */
  lemma {:induction false} StartRunEntersLoop(o: Oracle, now: int, w: World, workflow: int, input: Value,
                                              parent: Option<nat>, maxSteps: int, role: string)
    requires Valid(w)
    requires StartRun(o, now, w, workflow, input, parent, maxSteps, role).1.Success?
    ensures var w1 := Started(w, workflow, input, parent, maxSteps, role);
      && Valid(w1) && |w1.runs| == |w.runs| + 1
      && Unvisited(w1, |w.runs|) == w.workflows.Keys - ({workflow} + ParentAncestry(w.runs, parent, |w.runs|))
      && StartRun(o, now, w, workflow, input, parent, maxSteps, role).0 == RunSteps(o, now, w1, |w.runs|, 0, input)
  {
    var w1 := Started(w, workflow, input, parent, maxSteps, role);
    NewRowAncestry(w, w1, workflow, parent);
    assert SetRow(w1, |w.runs|, w1.runs[|w.runs|].(status := Running)) == w1;
  }

  /** `_execute`. */
  function Execute(o: Oracle, now: int, w: World, id: nat): (w': World)
    requires Valid(w) && id < |w.runs|
    ensures Frame(w, w', id)
    decreases Unvisited(w, id), 0, |StepsOf(w, id)| + 1, 0, 0
  {
    var row := w.runs[id];
    if row.status == Cancelled then w
    else
      var w1 := SetRow(w, id, row.(status := Running));
      FrameKeepsUnvisited(w, w1, id);
      RunSteps(o, now, w1, id, row.currentStep, CurrentValue(row))
  }

  /** The step loop from `index` on. */
  function RunSteps(o: Oracle, now: int, w: World, id: nat, index: nat, value: Value): (w': World)
    requires Valid(w) && id < |w.runs|
    ensures Frame(w, w', id)
    decreases Unvisited(w, id), 0, StepsLeft(w, id, index), 8, 0
  {
    if index >= |StepsOf(w, id)| then SetRow(w, id, FinishRow(w.runs[id], value))
    else
      var (w1, result) := Turn(o, now, w, id, index, value);
      FrameKeepsUnvisited(w, w1, id);
      match result
      case None => w1
      case Some(output) => RunSteps(o, now, w1, id, index + 1, output)
  }

  /** One turn leaves fewer steps, and as many unvisited workflows. */
  lemma LoopUnfold(o: Oracle, now: int, w: World, id: nat, index: nat, value: Value)
    requires Valid(w) && id < |w.runs| && index < |StepsOf(w, id)|
    ensures var (w1, result) := Turn(o, now, w, id, index, value);
      && Unvisited(w1, id) == Unvisited(w, id)
      && StepsLeft(w1, id, index + 1) == StepsLeft(w, id, index) - 1
      && RunSteps(o, now, w, id, index, value)
         == (match result case None => w1 case Some(output) => RunSteps(o, now, w1, id, index + 1, output))
  {
    FrameKeepsUnvisited(w, Turn(o, now, w, id, index, value).0, id);
  }

  function StepsLeft(w: World, id: nat, index: nat): nat
    requires Valid(w) && id < |w.runs|
  {
    if index < |StepsOf(w, id)| then |StepsOf(w, id)| - index else 0
  }

  /** One turn of the loop: the step's output, or nothing when the loop must stop. */
  function Turn(o: Oracle, now: int, w: World, id: nat, index: nat, value: Value): (r: (World, Option<Value>))
    requires Valid(w) && id < |w.runs| && index < |StepsOf(w, id)|
    ensures Frame(w, r.0, id)
    decreases Unvisited(w, id), 0, |StepsOf(w, id)| - index, 7, 0
  {
    var row := w.runs[id];
    var step := StepsOf(w, id)[index];
    if row.status == Cancelled then (w, None)
    else if index >= row.maxSteps then (SetRow(w, id, StopRow(row, BudgetExceeded)), None)
    else if !RoleAllowed(step, row.role) then (SetRow(w, id, StopRow(row, PermissionDenied)), None)
    else if step.tool.Approval? then
      (if SpanFree(row, index) then
         SetRow(w, id, PauseRow(WithSpan(row, WaitingSpan(index, step, value)), index, step.tool, value, now))
       else w, None)
    else
      var (w1, outcome) := Attempts(o, now, w, id, index, value, 0);
      Record(w1, id, index, step, value, outcome)
  }

  /** The step passes its checks and has a tool to call. */
  predicate Calls(row: Row, step: Step, index: nat) {
    row.status != Cancelled && index < row.maxSteps && RoleAllowed(step, row.role) && !step.tool.Approval?
  }

  lemma {:induction false} TurnCalls(o: Oracle, now: int, w: World, id: nat, index: nat, value: Value)
    requires Valid(w) && id < |w.runs| && index < |StepsOf(w, id)| && Calls(w.runs[id], StepsOf(w, id)[index], index)
    ensures var (w1, outcome) := Attempts(o, now, w, id, index, value, 0);
      Turn(o, now, w, id, index, value) == Record(w1, id, index, StepsOf(w, id)[index], value, outcome)
  {
  }

  /** The span of a finished step and the update of its run. */
  function Record(w: World, id: nat, index: nat, step: Step, value: Value, outcome: Outcome): (r: (World, Option<Value>))
    requires Valid(w) && id < |w.runs|
    ensures Frame(w, r.0, id) && |r.0.runs| == |w.runs|
  {
    var row := w.runs[id];
    if row.status == Cancelled || !SpanFree(row, index) then (w, None)
    else match outcome
      case Err(error) =>
        (SetRow(w, id, FailRow(WithSpan(row, FailedSpan(index, step, value, error)), index, error)), None)
      case Ok(output) =>
        (SetRow(w, id, AdvanceRow(WithSpan(row, CompletedSpan(index, step, value, output)), index, output)), Some(output))
  }

  /** The retry loop of one step. */
  function Attempts(o: Oracle, now: int, w: World, id: nat, index: nat, value: Value, attempt: nat): (r: (World, Outcome))
    requires Valid(w) && id < |w.runs| && index < |StepsOf(w, id)|
    requires attempt <= Retries(StepsOf(w, id)[index])
    ensures Frame(w, r.0, id) && r.0.runs[id] == w.runs[id]
    decreases Unvisited(w, id), 0, |StepsOf(w, id)| - index, 6 - attempt, 1
  {
    var step := StepsOf(w, id)[index];
    var (w1, outcome) := Invoke(o, now, w, id, index, value, attempt);
    FrameKeepsUnvisited(w, w1, id);
    if outcome.Ok? || attempt == Retries(step) then (w1, outcome)
    else Attempts(o, now, w1, id, index, value, attempt + 1)
  }

  /** The retry loop, unrolled once. */
  lemma AttemptsUnfold(o: Oracle, now: int, w: World, id: nat, index: nat, value: Value, attempt: nat)
    requires Valid(w) && id < |w.runs| && index < |StepsOf(w, id)|
    requires attempt <= Retries(StepsOf(w, id)[index])
    ensures var (w1, outcome) := Invoke(o, now, w, id, index, value, attempt);
      Attempts(o, now, w, id, index, value, attempt)
      == (if outcome.Ok? || attempt == Retries(StepsOf(w, id)[index]) then (w1, outcome)
          else Attempts(o, now, w1, id, index, value, attempt + 1))
  {
  }

  /** What a handoff returns: the redacted output of a completed child. */
  function ChildOutcome(id: nat, child: Row): Outcome {
    if child.status == Completed then Ok(Redact(child.output)) else Err(ChildEnded(id, child.status))
  }

  /** One call of a tool: `_invoke_tool`, `_invoke_llm` or `_apply_agent_tool`. */
  function Invoke(o: Oracle, now: int, w: World, id: nat, index: nat, value: Value, attempt: nat): (r: (World, Outcome))
    requires Valid(w) && id < |w.runs| && index < |StepsOf(w, id)| && attempt <= 5
    ensures Frame(w, r.0, id) && r.0.runs[id] == w.runs[id]
    decreases Unvisited(w, id), 0, |StepsOf(w, id)| - index, 6 - attempt, 0
  {
    var project := ProjectOf(w, id);
    var tool := StepsOf(w, id)[index].tool;
    match tool
    case Handoff(target, maxSteps) =>
      if target !in w.workflows then (w, Err(NotFound))
      else if w.workflows[target].project != project then (w, Err(WrongProject))
      else if target in Ancestry(w.runs, id) then (w, Err(LoopDetected))
      else
        assert target in Unvisited(w, id);
        var (w1, child) := StartRun(o, now, w, target, value, Some(id), maxSteps, w.runs[id].role);
        (w1, ChildOutcome(child.value, w1.runs[child.value]))
    case _ =>
      (w.(memory := LocalMemory(project, w.memory, tool, value)),
       LocalOutcome(o, project, w.secrets, w.memory, tool, value, attempt))
  }

  /** A handoff within the project either finds a loop or starts one child. */
  lemma {:induction false} InvokeHandoff(o: Oracle, now: int, w: World, id: nat, index: nat, value: Value, attempt: nat,
                                         tool: Tool)
    requires Valid(w) && id < |w.runs| && index < |StepsOf(w, id)| && attempt <= 5 && tool == StepsOf(w, id)[index].tool
    requires tool.Handoff? && tool.target in w.workflows && w.workflows[tool.target].project == ProjectOf(w, id)
    ensures tool.target in Ancestry(w.runs, id) ==>
      Invoke(o, now, w, id, index, value, attempt) == (w, Err(LoopDetected))
    ensures tool.target !in Ancestry(w.runs, id) ==>
      var (w1, child) := StartRun(o, now, w, tool.target, value, Some(id), tool.maxSteps, w.runs[id].role);
      && child == Success(|w.runs|) && |w.runs| < |w1.runs|
      && Invoke(o, now, w, id, index, value, attempt) == (w1, ChildOutcome(|w.runs|, w1.runs[|w.runs|]))
  {
  }
}
