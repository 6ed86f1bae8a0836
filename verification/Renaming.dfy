/**
  Running a workflow under another set of workflow ids: the heart of why project
  import preserves meaning.  Two worlds run side by side; the left one uses the
  original ids and project, the right one the new ones, and runs started from
  position `b1` on the left correspond to runs from position `b2` on the right.
  */
module Renaming {
  import opened Prelude
  import opened Json
  import opened Runs
  import opened Interpreter

  /** Original workflow id to new workflow id, and the two projects. */
  datatype Names = Names(ids: map<int, int>, project1: int, project2: int)

  function RenameTool(tool: Tool, ids: map<int, int>): Tool {
    match tool
    case Handoff(target, maxSteps) => Handoff(if target in ids then ids[target] else target, maxSteps)
    case _ => tool
  }

  function RenameStep(step: Step, ids: map<int, int>): Step {
    step.(tool := RenameTool(step.tool, ids))
  }

  function RenameSteps(steps: seq<Step>, ids: map<int, int>): seq<Step> {
    seq(|steps|, i requires 0 <= i < |steps| => RenameStep(steps[i], ids))
  }

  predicate TargetsIn(steps: seq<Step>, ids: set<int>) {
    forall i | 0 <= i < |steps| && steps[i].tool.Handoff? :: steps[i].tool.target in ids
  }

  ghost predicate Injective(ids: map<int, int>) {
    forall a, b | a in ids && b in ids && ids[a] == ids[b] :: a == b
  }

  /** Every named workflow exists on both sides, its steps renamed on the right, and
      hands off to named workflows only. */
  ghost predicate Corresponds(n: Names, left: map<int, Workflow>, right: map<int, Workflow>) {
    && Injective(n.ids)
    && forall s | s in n.ids ::
         && s in left && n.ids[s] in right
         && left[s].project == n.project1 && right[n.ids[s]].project == n.project2
         && right[n.ids[s]].steps == RenameSteps(left[s].steps, n.ids)
         && TargetsIn(left[s].steps, n.ids.Keys)
  }

  /******* Equal up to ids *******/

  ghost predicate SameRef(b1: nat, b2: nat, id1: nat, id2: nat) {
    id1 >= b1 && id2 >= b2 && id1 - b1 == id2 - b2
  }

  ghost predicate SameError(b1: nat, b2: nat, e1: Error, e2: Error) {
    || e1 == e2
    || (e1.ChildEnded? && e2.ChildEnded? && e1.status == e2.status && SameRef(b1, b2, e1.child, e2.child))
  }

  ghost predicate SameErrorOption(b1: nat, b2: nat, e1: Option<Error>, e2: Option<Error>) {
    match (e1, e2)
    case (Some(x), Some(y)) => SameError(b1, b2, x, y)
    case _ => e1 == e2
  }

  ghost predicate SameOutcome(b1: nat, b2: nat, o1: Outcome, o2: Outcome) {
    match (o1, o2)
    case (Err(x), Err(y)) => SameError(b1, b2, x, y)
    case _ => o1 == o2
  }

  ghost predicate SameSpan(b1: nat, b2: nat, s1: Span, s2: Span) {
    && s2 == s1.(error := s2.error)
    && SameErrorOption(b1, b2, s1.error, s2.error)
  }

  ghost predicate SameSpans(b1: nat, b2: nat, s1: seq<Span>, s2: seq<Span>) {
    && |s1| == |s2|
    && forall i | 0 <= i < |s1| :: SameSpan(b1, b2, s1[i], s2[i])
  }

  /** The same run, under new names. */
  ghost predicate SameRow(n: Names, b1: nat, b2: nat, r1: Row, r2: Row) {
    && r1.workflow in n.ids && r2.workflow == n.ids[r1.workflow]
    && (match (r1.parent, r2.parent)
        case (None, None) => true
        case (Some(p1), Some(p2)) => SameRef(b1, b2, p1, p2)
        case _ => false)
    && r2 == r1.(workflow := r2.workflow, parent := r2.parent, error := r2.error, spans := r2.spans)
    && SameErrorOption(b1, b2, r1.error, r2.error)
    && SameSpans(b1, b2, r1.spans, r2.spans)
  }

  ghost predicate SameMemory(n: Names, m1: Memory, m2: Memory) {
    forall namespace, key ::
      && ((n.project1, namespace, key) in m1 <==> (n.project2, namespace, key) in m2)
      && ((n.project1, namespace, key) in m1 ==>
            m1[(n.project1, namespace, key)] == m2[(n.project2, namespace, key)])
  }

  /** One secret as either project has it. */
  ghost predicate SameSecret(n: Names, s1: Secrets, s2: Secrets, name: string) {
    && ((n.project1, name) in s1 <==> (n.project2, name) in s2)
    && ((n.project1, name) in s1 ==> s1[(n.project1, name)] == s2[(n.project2, name)])
  }

  /** The projects agree on the credentials that some steps name. */
  ghost predicate SameCredentials(n: Names, steps: seq<Step>, s1: Secrets, s2: Secrets) {
    forall j | 0 <= j < |steps| && Credential(steps[j].tool).Some? ::
      SameSecret(n, s1, s2, Credential(steps[j].tool).value)
  }

  /** They agree on all that the named workflows need. */
  ghost predicate SameSecrets(n: Names, workflows: map<int, Workflow>, s1: Secrets, s2: Secrets) {
    forall s | s in n.ids && s in workflows :: SameCredentials(n, workflows[s].steps, s1, s2)
  }

  ghost predicate SameRuns(n: Names, b1: nat, b2: nat, runs1: seq<Row>, runs2: seq<Row>) {
    && b1 <= |runs1| && b2 <= |runs2| && |runs1| - b1 == |runs2| - b2
    && forall k: nat | k < |runs1| - b1 :: SameAt(n, b1, b2, runs1, runs2, k)
  }

  ghost predicate SameAt(n: Names, b1: nat, b2: nat, runs1: seq<Row>, runs2: seq<Row>, k: nat)
    requires b1 + k < |runs1| && b2 + k < |runs2|
  {
    SameRow(n, b1, b2, runs1[b1 + k], runs2[b2 + k])
  }

  ghost predicate SameWorld(n: Names, b1: nat, b2: nat, w1: World, w2: World) {
    && Valid(w1) && Valid(w2)
    && Corresponds(n, w1.workflows, w2.workflows)
    && SameRuns(n, b1, b2, w1.runs, w2.runs)
    && SameMemory(n, w1.memory, w2.memory)
    && SameSecrets(n, w1.workflows, w1.secrets, w2.secrets)
  }

  ghost predicate SameResult(n: Names, b1: nat, b2: nat, w1: World, w2: World, r1: Option<Value>, r2: Option<Value>) {
    SameWorld(n, b1, b2, w1, w2) && r1 == r2
  }

  /******* The simulation *******/

  lemma {:induction false} SameAncestry(n: Names, b1: nat, b2: nat, w1: World, w2: World, k: nat, target: int)
    requires SameWorld(n, b1, b2, w1, w2) && b1 + k < |w1.runs| && target in n.ids
    ensures target in Ancestry(w1.runs, b1 + k) <==> n.ids[target] in Ancestry(w2.runs, b2 + k)
    decreases k
  {
    var r1, r2 := w1.runs[b1 + k], w2.runs[b2 + k];
    assert SameAt(n, b1, b2, w1.runs, w2.runs, k);
    if r1.parent.Some? {
      SameAncestry(n, b1, b2, w1, w2, r1.parent.value - b1, target);
    }
  }

  lemma SetSameRow(n: Names, b1: nat, b2: nat, w1: World, w2: World, k: nat, r1: Row, r2: Row)
    requires SameWorld(n, b1, b2, w1, w2) && b1 + k < |w1.runs|
    requires SameRow(n, b1, b2, r1, r2)
    requires SameIdentity(w1.runs[b1 + k], r1) && SameIdentity(w2.runs[b2 + k], r2)
    ensures SameWorld(n, b1, b2, SetRow(w1, b1 + k, r1), SetRow(w2, b2 + k, r2))
  {
    var runs1, runs2 := w1.runs[b1 + k := r1], w2.runs[b2 + k := r2];
    forall j: nat | j < |runs1| - b1
      ensures SameAt(n, b1, b2, runs1, runs2, j)
    {
      assert SameAt(n, b1, b2, w1.runs, w2.runs, j);
    }
  }

  lemma SameSteps(n: Names, b1: nat, b2: nat, w1: World, w2: World, k: nat)
    requires SameWorld(n, b1, b2, w1, w2) && b1 + k < |w1.runs|
    ensures SameRow(n, b1, b2, w1.runs[b1 + k], w2.runs[b2 + k])
    ensures StepsOf(w2, b2 + k) == RenameSteps(StepsOf(w1, b1 + k), n.ids)
    ensures TargetsIn(StepsOf(w1, b1 + k), n.ids.Keys)
    ensures ProjectOf(w1, b1 + k) == n.project1 && ProjectOf(w2, b2 + k) == n.project2
  {
    assert SameAt(n, b1, b2, w1.runs, w2.runs, k);
  }

  lemma SameSlots(b1: nat, b2: nat, r1: Row, r2: Row, index: nat)
    requires SameSpans(b1, b2, r1.spans, r2.spans)
    ensures SpanFree(r1, index) <==> SpanFree(r2, index)
  {
    forall i | 0 <= i < |r1.spans|
      ensures r1.spans[i].index == r2.spans[i].index
    {
      assert SameSpan(b1, b2, r1.spans[i], r2.spans[i]);
    }
  }

  lemma StartedSame(n: Names, b1: nat, b2: nat, w1: World, w2: World, workflow: int, input: Value,
                    parent1: Option<nat>, parent2: Option<nat>, maxSteps: int, role: string)
    requires SameWorld(n, b1, b2, w1, w2) && workflow in n.ids
    requires match (parent1, parent2)
             case (None, None) => true
             case (Some(p1), Some(p2)) => p1 < |w1.runs| && SameRef(b1, b2, p1, p2)
             case _ => false
    ensures SameWorld(n, b1, b2, Started(w1, workflow, input, parent1, maxSteps, role),
                      Started(w2, n.ids[workflow], input, parent2, maxSteps, role))
  {
    var s1 := Started(w1, workflow, input, parent1, maxSteps, role);
    var s2 := Started(w2, n.ids[workflow], input, parent2, maxSteps, role);
    forall j: nat | j < |s1.runs| - b1
      ensures SameAt(n, b1, b2, s1.runs, s2.runs, j)
    {
      if j < |w1.runs| - b1 {
        assert SameAt(n, b1, b2, w1.runs, w2.runs, j);
      }
    }
  }

  lemma {:induction false} StartRunSame(o: Oracle, now: int, n: Names, b1: nat, b2: nat, w1: World, w2: World, workflow: int,
                                        input: Value, parent1: Option<nat>, parent2: Option<nat>, maxSteps: int, role: string)
    requires SameWorld(n, b1, b2, w1, w2) && workflow in n.ids
    requires match (parent1, parent2)
             case (None, None) => true
             case (Some(p1), Some(p2)) => p1 < |w1.runs| && SameRef(b1, b2, p1, p2)
             case _ => false
    ensures var (after1, r1) := StartRun(o, now, w1, workflow, input, parent1, maxSteps, role);
      var (after2, r2) := StartRun(o, now, w2, n.ids[workflow], input, parent2, maxSteps, role);
      && r1 == Success(|w1.runs|) && r2 == Success(|w2.runs|)
      && SameWorld(n, b1, b2, after1, after2)
    decreases w1.workflows.Keys - ({workflow} + ParentAncestry(w1.runs, parent1, |w1.runs|)), 1, 0, 0, 0
  {
    if parent1.Some? {
      SameSteps(n, b1, b2, w1, w2, parent1.value - b1);
    }
    StartRunEntersLoop(o, now, w1, workflow, input, parent1, maxSteps, role);
    StartRunEntersLoop(o, now, w2, n.ids[workflow], input, parent2, maxSteps, role);
    StartedSame(n, b1, b2, w1, w2, workflow, input, parent1, parent2, maxSteps, role);
    var s1 := Started(w1, workflow, input, parent1, maxSteps, role);
    var s2 := Started(w2, n.ids[workflow], input, parent2, maxSteps, role);
    RunStepsSame(o, now, n, b1, b2, s1, s2, |w1.runs| - b1, 0, input);
  }

  lemma {:induction false} RunStepsSame(o: Oracle, now: int, n: Names, b1: nat, b2: nat, w1: World, w2: World, k: nat,
                                        index: nat, value: Value)
    requires SameWorld(n, b1, b2, w1, w2) && b1 + k < |w1.runs|
    ensures SameWorld(n, b1, b2, RunSteps(o, now, w1, b1 + k, index, value), RunSteps(o, now, w2, b2 + k, index, value))
    decreases Unvisited(w1, b1 + k), 0, StepsLeft(w1, b1 + k, index), 8, 0
  {
    SameSteps(n, b1, b2, w1, w2, k);
    if index >= |StepsOf(w1, b1 + k)| {
      SetSameRow(n, b1, b2, w1, w2, k, FinishRow(w1.runs[b1 + k], value), FinishRow(w2.runs[b2 + k], value));
    } else {
      TurnSame(o, now, n, b1, b2, w1, w2, k, index, value);
      var (after1, result) := Turn(o, now, w1, b1 + k, index, value);
      var (after2, _) := Turn(o, now, w2, b2 + k, index, value);
      LoopUnfold(o, now, w1, b1 + k, index, value);
      LoopUnfold(o, now, w2, b2 + k, index, value);
      if result.Some? {
        RunStepsSame(o, now, n, b1, b2, after1, after2, k, index + 1, result.value);
      }
    }
  }

  lemma {:induction false} TurnSame(o: Oracle, now: int, n: Names, b1: nat, b2: nat, w1: World, w2: World, k: nat,
                                    index: nat, value: Value)
    requires SameWorld(n, b1, b2, w1, w2) && b1 + k < |w1.runs| && index < |StepsOf(w1, b1 + k)|
    ensures index < |StepsOf(w2, b2 + k)|
    ensures var (after1, r1) := Turn(o, now, w1, b1 + k, index, value);
      var (after2, r2) := Turn(o, now, w2, b2 + k, index, value);
      SameResult(n, b1, b2, after1, after2, r1, r2)
    decreases Unvisited(w1, b1 + k), 0, |StepsOf(w1, b1 + k)| - index, 7, 0
  {
    SameSteps(n, b1, b2, w1, w2, k);
    var row1, row2 := w1.runs[b1 + k], w2.runs[b2 + k];
    var step := StepsOf(w1, b1 + k)[index];
    assert StepsOf(w2, b2 + k)[index] == RenameStep(step, n.ids);
    if Calls(row1, step, index) {
      CallSame(o, now, n, b1, b2, w1, w2, k, index, value);
    } else if row1.status != Cancelled && index < row1.maxSteps && RoleAllowed(step, row1.role) {
      PauseSame(now, n, b1, b2, w1, w2, k, index, step, value);
    } else {
      StopSame(o, now, n, b1, b2, w1, w2, k, index, step, value);
    }
  }

  lemma StopSame(o: Oracle, now: int, n: Names, b1: nat, b2: nat, w1: World, w2: World, k: nat, index: nat, step: Step,
                 value: Value)
    requires SameWorld(n, b1, b2, w1, w2) && b1 + k < |w1.runs| && index < |StepsOf(w1, b1 + k)|
    requires index < |StepsOf(w2, b2 + k)|
    requires step == StepsOf(w1, b1 + k)[index] && StepsOf(w2, b2 + k)[index] == RenameStep(step, n.ids)
    requires var row1 := w1.runs[b1 + k];
      row1.status == Cancelled || index >= row1.maxSteps || !RoleAllowed(step, row1.role)
    ensures var (after1, r1) := Turn(o, now, w1, b1 + k, index, value);
      var (after2, r2) := Turn(o, now, w2, b2 + k, index, value);
      SameResult(n, b1, b2, after1, after2, r1, r2)
  {
    SameSteps(n, b1, b2, w1, w2, k);
    var row1, row2 := w1.runs[b1 + k], w2.runs[b2 + k];
    if row1.status != Cancelled {
      var error := if index >= row1.maxSteps then BudgetExceeded else PermissionDenied;
      SetSameRow(n, b1, b2, w1, w2, k, StopRow(row1, error), StopRow(row2, error));
    }
  }

  lemma {:induction false} CallSame(o: Oracle, now: int, n: Names, b1: nat, b2: nat, w1: World, w2: World, k: nat,
                                    index: nat, value: Value)
    requires SameWorld(n, b1, b2, w1, w2) && b1 + k < |w1.runs| && index < |StepsOf(w1, b1 + k)|
    requires Calls(w1.runs[b1 + k], StepsOf(w1, b1 + k)[index], index)
    ensures index < |StepsOf(w2, b2 + k)|
    ensures var (after1, r1) := Turn(o, now, w1, b1 + k, index, value);
      var (after2, r2) := Turn(o, now, w2, b2 + k, index, value);
      SameResult(n, b1, b2, after1, after2, r1, r2)
    decreases Unvisited(w1, b1 + k), 0, |StepsOf(w1, b1 + k)| - index, 6, 2
  {
    SameSteps(n, b1, b2, w1, w2, k);
    var step := StepsOf(w1, b1 + k)[index];
    assert StepsOf(w2, b2 + k)[index] == RenameStep(step, n.ids);
    AttemptsSame(o, now, n, b1, b2, w1, w2, k, index, value, 0);
    var (after1, o1) := Attempts(o, now, w1, b1 + k, index, value, 0);
    var (after2, o2) := Attempts(o, now, w2, b2 + k, index, value, 0);
    RecordSame(n, b1, b2, after1, after2, k, index, step, value, o1, o2);
    TurnCalls(o, now, w1, b1 + k, index, value);
    TurnCalls(o, now, w2, b2 + k, index, value);
  }

  lemma PauseSame(now: int, n: Names, b1: nat, b2: nat, w1: World, w2: World, k: nat, index: nat, step: Step, value: Value)
    requires SameWorld(n, b1, b2, w1, w2) && b1 + k < |w1.runs| && step.tool.Approval?
    ensures var row1, row2 := w1.runs[b1 + k], w2.runs[b2 + k];
      && (SpanFree(row1, index) <==> SpanFree(row2, index))
      && SameWorld(n, b1, b2,
                   SetRow(w1, b1 + k, PauseRow(WithSpan(row1, WaitingSpan(index, step, value)), index, step.tool, value, now)),
                   SetRow(w2, b2 + k, PauseRow(WithSpan(row2, WaitingSpan(index, RenameStep(step, n.ids), value)), index,
                                               RenameStep(step, n.ids).tool, value, now)))
  {
    var row1, row2 := w1.runs[b1 + k], w2.runs[b2 + k];
    SameSteps(n, b1, b2, w1, w2, k);
    SameSlots(b1, b2, row1, row2, index);
    var p1 := PauseRow(WithSpan(row1, WaitingSpan(index, step, value)), index, step.tool, value, now);
    var p2 := PauseRow(WithSpan(row2, WaitingSpan(index, RenameStep(step, n.ids), value)), index, step.tool, value, now);
    AppendSame(b1, b2, row1.spans, row2.spans, WaitingSpan(index, step, value), WaitingSpan(index, RenameStep(step, n.ids), value));
    SetSameRow(n, b1, b2, w1, w2, k, p1, p2);
  }

  lemma RecordSame(n: Names, b1: nat, b2: nat, w1: World, w2: World, k: nat, index: nat, step: Step, value: Value,
                   o1: Outcome, o2: Outcome)
    requires SameWorld(n, b1, b2, w1, w2) && b1 + k < |w1.runs| && SameOutcome(b1, b2, o1, o2)
    ensures var (after1, r1) := Record(w1, b1 + k, index, step, value, o1);
      var (after2, r2) := Record(w2, b2 + k, index, RenameStep(step, n.ids), value, o2);
      SameResult(n, b1, b2, after1, after2, r1, r2)
  {
    var row1, row2 := w1.runs[b1 + k], w2.runs[b2 + k];
    SameSteps(n, b1, b2, w1, w2, k);
    SameSlots(b1, b2, row1, row2, index);
    if row1.status != Cancelled && SpanFree(row1, index) {
      var step2 := RenameStep(step, n.ids);
      match (o1, o2)
      case (Ok(output), _) =>
        AppendSame(b1, b2, row1.spans, row2.spans, CompletedSpan(index, step, value, output),
                   CompletedSpan(index, step2, value, output));
        SetSameRow(n, b1, b2, w1, w2, k,
                   AdvanceRow(WithSpan(row1, CompletedSpan(index, step, value, output)), index, output),
                   AdvanceRow(WithSpan(row2, CompletedSpan(index, step2, value, output)), index, output));
      case (Err(e1), Err(e2)) =>
        AppendSame(b1, b2, row1.spans, row2.spans, FailedSpan(index, step, value, e1), FailedSpan(index, step2, value, e2));
        SetSameRow(n, b1, b2, w1, w2, k,
                   FailRow(WithSpan(row1, FailedSpan(index, step, value, e1)), index, e1),
                   FailRow(WithSpan(row2, FailedSpan(index, step2, value, e2)), index, e2));
      case _ =>
    }
  }

  lemma AppendSame(b1: nat, b2: nat, s1: seq<Span>, s2: seq<Span>, x1: Span, x2: Span)
    requires SameSpans(b1, b2, s1, s2) && SameSpan(b1, b2, x1, x2)
    ensures SameSpans(b1, b2, s1 + [x1], s2 + [x2])
  {
  }

  lemma {:induction false} AttemptsSame(o: Oracle, now: int, n: Names, b1: nat, b2: nat, w1: World, w2: World, k: nat,
                                        index: nat, value: Value, attempt: nat)
    requires SameWorld(n, b1, b2, w1, w2) && b1 + k < |w1.runs| && index < |StepsOf(w1, b1 + k)|
    requires attempt <= Retries(StepsOf(w1, b1 + k)[index])
    ensures index < |StepsOf(w2, b2 + k)| && attempt <= Retries(StepsOf(w2, b2 + k)[index])
    ensures var (after1, o1) := Attempts(o, now, w1, b1 + k, index, value, attempt);
      var (after2, o2) := Attempts(o, now, w2, b2 + k, index, value, attempt);
      SameWorld(n, b1, b2, after1, after2) && SameOutcome(b1, b2, o1, o2)
    decreases Unvisited(w1, b1 + k), 0, |StepsOf(w1, b1 + k)| - index, 6 - attempt, 1
  {
    SameSteps(n, b1, b2, w1, w2, k);
    var step := StepsOf(w1, b1 + k)[index];
    assert StepsOf(w2, b2 + k)[index] == RenameStep(step, n.ids);
    InvokeSame(o, now, n, b1, b2, w1, w2, k, index, value, attempt);
    AttemptsUnfold(o, now, w1, b1 + k, index, value, attempt);
    AttemptsUnfold(o, now, w2, b2 + k, index, value, attempt);
    var (mid1, o1) := Invoke(o, now, w1, b1 + k, index, value, attempt);
    if o1.Err? && attempt < Retries(step) {
      RetrySame(o, now, n, b1, b2, w1, w2, k, index, value, attempt);
    }
  }

  /** The next attempt, on the worlds that a failed attempt left. */
  lemma {:induction false} RetrySame(o: Oracle, now: int, n: Names, b1: nat, b2: nat, w1: World, w2: World, k: nat,
                                     index: nat, value: Value, attempt: nat)
    requires SameWorld(n, b1, b2, w1, w2) && b1 + k < |w1.runs| && index < |StepsOf(w1, b1 + k)|
    requires attempt < Retries(StepsOf(w1, b1 + k)[index])
    requires index < |StepsOf(w2, b2 + k)| && attempt < Retries(StepsOf(w2, b2 + k)[index])
    requires SameWorld(n, b1, b2, Invoke(o, now, w1, b1 + k, index, value, attempt).0,
                       Invoke(o, now, w2, b2 + k, index, value, attempt).0)
    ensures var mid1 := Invoke(o, now, w1, b1 + k, index, value, attempt).0;
      var mid2 := Invoke(o, now, w2, b2 + k, index, value, attempt).0;
      var (after1, o1) := Attempts(o, now, mid1, b1 + k, index, value, attempt + 1);
      var (after2, o2) := Attempts(o, now, mid2, b2 + k, index, value, attempt + 1);
      SameWorld(n, b1, b2, after1, after2) && SameOutcome(b1, b2, o1, o2)
    decreases Unvisited(w1, b1 + k), 0, |StepsOf(w1, b1 + k)| - index, 6 - attempt, 0
  {
    var mid1 := Invoke(o, now, w1, b1 + k, index, value, attempt).0;
    var mid2 := Invoke(o, now, w2, b2 + k, index, value, attempt).0;
    FrameKeepsUnvisited(w1, mid1, b1 + k);
    AttemptsSame(o, now, n, b1, b2, mid1, mid2, k, index, value, attempt + 1);
  }

  lemma {:induction false} InvokeSame(o: Oracle, now: int, n: Names, b1: nat, b2: nat, w1: World, w2: World, k: nat,
                                      index: nat, value: Value, attempt: nat)
    requires SameWorld(n, b1, b2, w1, w2) && b1 + k < |w1.runs| && index < |StepsOf(w1, b1 + k)| && attempt <= 5
    ensures index < |StepsOf(w2, b2 + k)|
    ensures var (after1, o1) := Invoke(o, now, w1, b1 + k, index, value, attempt);
      var (after2, o2) := Invoke(o, now, w2, b2 + k, index, value, attempt);
      SameWorld(n, b1, b2, after1, after2) && SameOutcome(b1, b2, o1, o2)
    decreases Unvisited(w1, b1 + k), 0, |StepsOf(w1, b1 + k)| - index, 6 - attempt, 0
  {
    SameSteps(n, b1, b2, w1, w2, k);
    var tool := StepsOf(w1, b1 + k)[index].tool;
    assert StepsOf(w2, b2 + k)[index].tool == RenameTool(tool, n.ids);
    if tool.Handoff? {
      InvokeHandoffSame(o, now, n, b1, b2, w1, w2, k, index, value, attempt);
    } else {
      assert SameCredentials(n, StepsOf(w1, b1 + k), w1.secrets, w2.secrets);
      LocalSame(o, n, w1, w2, tool, value, attempt);
      MemorySame(n, b1, b2, w1, w2, tool, value);
    }
  }

  lemma LocalSame(o: Oracle, n: Names, w1: World, w2: World, tool: Tool, value: Value, attempt: nat)
    requires SameMemory(n, w1.memory, w2.memory)
    requires Credential(tool).Some? ==> SameSecret(n, w1.secrets, w2.secrets, Credential(tool).value)
    ensures LocalOutcome(o, n.project1, w1.secrets, w1.memory, tool, value, attempt)
            == LocalOutcome(o, n.project2, w2.secrets, w2.memory, tool, value, attempt)
  {
  }

  lemma MemorySame(n: Names, b1: nat, b2: nat, w1: World, w2: World, tool: Tool, value: Value)
    requires SameWorld(n, b1, b2, w1, w2)
    ensures SameWorld(n, b1, b2, w1.(memory := LocalMemory(n.project1, w1.memory, tool, value)),
                      w2.(memory := LocalMemory(n.project2, w2.memory, tool, value)))
  {
  }

  lemma {:induction false} InvokeHandoffSame(o: Oracle, now: int, n: Names, b1: nat, b2: nat, w1: World, w2: World, k: nat,
                                             index: nat, value: Value, attempt: nat)
    requires SameWorld(n, b1, b2, w1, w2) && b1 + k < |w1.runs| && index < |StepsOf(w1, b1 + k)| && attempt <= 5
    requires index < |StepsOf(w2, b2 + k)|
    requires StepsOf(w1, b1 + k)[index].tool.Handoff? && StepsOf(w1, b1 + k)[index].tool.target in n.ids
    requires StepsOf(w2, b2 + k)[index].tool == RenameTool(StepsOf(w1, b1 + k)[index].tool, n.ids)
    ensures var (after1, o1) := Invoke(o, now, w1, b1 + k, index, value, attempt);
      var (after2, o2) := Invoke(o, now, w2, b2 + k, index, value, attempt);
      SameWorld(n, b1, b2, after1, after2) && SameOutcome(b1, b2, o1, o2)
    decreases Unvisited(w1, b1 + k), 0, |StepsOf(w1, b1 + k)| - index, 5 - attempt, 1
  {
    var tool := StepsOf(w1, b1 + k)[index].tool;
    SameSteps(n, b1, b2, w1, w2, k);
    SameAncestry(n, b1, b2, w1, w2, k, tool.target);
    InvokeHandoff(o, now, w1, b1 + k, index, value, attempt, tool);
    InvokeHandoff(o, now, w2, b2 + k, index, value, attempt, RenameTool(tool, n.ids));
    if tool.target !in Ancestry(w1.runs, b1 + k) {
      HandoffSame(o, now, n, b1, b2, w1, w2, k, tool, value);
      var after1 := StartRun(o, now, w1, tool.target, value, Some(b1 + k), tool.maxSteps, w1.runs[b1 + k].role).0;
      var after2 := StartRun(o, now, w2, n.ids[tool.target], value, Some(b2 + k), tool.maxSteps, w2.runs[b2 + k].role).0;
      SameChild(n, b1, b2, |w1.runs|, |w2.runs|, after1.runs[|w1.runs|], after2.runs[|w2.runs|]);
    }
  }

  lemma SameChild(n: Names, b1: nat, b2: nat, id1: nat, id2: nat, r1: Row, r2: Row)
    requires SameRow(n, b1, b2, r1, r2) && SameRef(b1, b2, id1, id2)
    ensures SameOutcome(b1, b2, ChildOutcome(id1, r1), ChildOutcome(id2, r2))
  {
  }

  lemma {:induction false} HandoffSame(o: Oracle, now: int, n: Names, b1: nat, b2: nat, w1: World, w2: World, k: nat,
                                       tool: Tool, value: Value)
    requires SameWorld(n, b1, b2, w1, w2) && b1 + k < |w1.runs|
    requires tool.Handoff? && tool.target in n.ids && tool.target !in Ancestry(w1.runs, b1 + k)
    ensures SameRow(n, b1, b2, w1.runs[b1 + k], w2.runs[b2 + k])
    ensures var (after1, c1) := StartRun(o, now, w1, tool.target, value, Some(b1 + k), tool.maxSteps, w1.runs[b1 + k].role);
      var (after2, c2) := StartRun(o, now, w2, n.ids[tool.target], value, Some(b2 + k), tool.maxSteps, w2.runs[b2 + k].role);
      && c1 == Success(|w1.runs|) && c2 == Success(|w2.runs|)
      && SameWorld(n, b1, b2, after1, after2)
      && SameRow(n, b1, b2, after1.runs[|w1.runs|], after2.runs[|w2.runs|])
      && SameRef(b1, b2, |w1.runs|, |w2.runs|)
    decreases w1.workflows.Keys - ({tool.target} + Ancestry(w1.runs, b1 + k)), 1, 1, 0, 0
  {
    SameSteps(n, b1, b2, w1, w2, k);
    assert ParentAncestry(w1.runs, Some(b1 + k), |w1.runs|) == Ancestry(w1.runs, b1 + k);
    StartRunSame(o, now, n, b1, b2, w1, w2, tool.target, value, Some(b1 + k), Some(b2 + k), tool.maxSteps,
                 w1.runs[b1 + k].role);
    var (after1, _) := StartRun(o, now, w1, tool.target, value, Some(b1 + k), tool.maxSteps, w1.runs[b1 + k].role);
    SameSteps(n, b1, b2, after1,
              StartRun(o, now, w2, n.ids[tool.target], value, Some(b2 + k), tool.maxSteps, w2.runs[b2 + k].role).0,
              |w1.runs| - b1);
  }
}
