/**
  How far handoffs can fan out.  Termination itself is Interpreter's `decreases`:
  (workflows not yet in the ancestry, steps left, attempts left).  Here: how many
  runs one call can create, how deep, and what `agent_tree` shows of them.
  */
module HandoffBounds {
  import opened Prelude
  import opened Json
  import opened Runs
  import opened Interpreter

  function Pow(b: nat, e: nat): nat {
    if e == 0 then 1 else b * Pow(b, e - 1)
  }

  /** sum of b^i for i = 0..d */
  function GeometricSum(b: nat, d: nat): nat {
    Pow(b, d) + (if d == 0 then 0 else GeometricSum(b, d - 1))
  }

  /** The most runs a run with `d` unvisited workflows creates, itself included. */
  function RunBound(b: nat, d: nat): nat {
    1 + b * ChildBound(b, d)
  }

  /** The most runs one handoff attempt creates. */
  function ChildBound(b: nat, d: nat): nat
    decreases d, 0
  {
    if d == 0 then 0 else 1 + b * ChildBound(b, d - 1)
  }

  lemma {:induction false} RunBoundIsGeometric(b: nat, d: nat)
    ensures RunBound(b, d) == GeometricSum(b, d)
  {
    if d > 0 {
      RunBoundIsGeometric(b, d - 1);
      ShiftGeometric(b, d - 1);
    }
  }

  lemma {:induction false} ShiftGeometric(b: nat, d: nat)
    ensures 1 + b * GeometricSum(b, d) == GeometricSum(b, d + 1)
  {
    if d > 0 {
      ShiftGeometric(b, d - 1);
      Distributes(b, GeometricSum(b, d - 1), Pow(b, d));
    }
  }

  lemma Distributes(b: nat, x: nat, y: nat)
    ensures b * (x + y) == b * x + b * y
  {
  }

  lemma {:induction false} ChildBoundMonotone(b: nat, d: nat, d': nat)
    requires d <= d'
    ensures ChildBound(b, d) <= ChildBound(b, d')
    decreases d'
  {
    if d > 0 {
      ChildBoundMonotone(b, d - 1, d' - 1);
      MulMonotone(b, ChildBound(b, d - 1), ChildBound(b, d' - 1));
    }
  }

  lemma MulMonotone(a: nat, x: nat, y: nat)
    requires x <= y
    ensures a * x <= a * y
  {
  }

  ghost predicate StepsBounded(w: World, L: nat) {
    forall workflow | workflow in w.workflows :: |w.workflows[workflow].steps| <= L
  }

  function Created(w: World, w': World): int {
    |w'.runs| - |w.runs|
  }

  /** c added up n times: a product the solver can count along with. */
  function Times(n: nat, c: nat): nat {
    if n == 0 then 0 else c + Times(n - 1, c)
  }

  lemma {:induction false} TimesIsProduct(n: nat, c: nat)
    ensures Times(n, c) == n * c
  {
    if n > 0 {
      TimesIsProduct(n - 1, c);
    }
  }

  lemma {:induction false} SixTimes(c: nat)
    ensures Times(6, c) == 6 * c
  {
    TimesIsProduct(6, c);
  }

  lemma {:induction false} Distribute(s: nat, L: nat, c: nat)
    requires s <= L
    ensures Times(s, 6 * c) <= (6 * L) * c
  {
    TimesIsProduct(s, 6 * c);
    MulMonotone(6 * c, s, L);
  }

  /** A run started with `d` unvisited workflows creates at most
      1 + 6L + ... + (6L)^d runs, counting itself. */
  lemma {:induction false} StartRunBound(o: Oracle, now: int, w: World, workflow: int, input: Value, parent: Option<nat>,
                                         maxSteps: int, role: string, L: nat, d: nat)
    requires Valid(w) && StepsBounded(w, L)
    requires d == |w.workflows.Keys - ({workflow} + ParentAncestry(w.runs, parent, |w.runs|))|
    ensures Created(w, StartRun(o, now, w, workflow, input, parent, maxSteps, role).0) <= RunBound(6 * L, d)
    decreases w.workflows.Keys - ({workflow} + ParentAncestry(w.runs, parent, |w.runs|)), 1, 0, 0, 0
  {
    if StartRun(o, now, w, workflow, input, parent, maxSteps, role).1.Success? {
      StartRunEntersLoop(o, now, w, workflow, input, parent, maxSteps, role);
      StartedRunBound(o, now, Started(w, workflow, input, parent, maxSteps, role), |w.runs|, input, L, d);
    }
  }

  lemma {:induction false} StartedRunBound(o: Oracle, now: int, w: World, id: nat, input: Value, L: nat, d: nat)
    requires Valid(w) && id < |w.runs| && StepsBounded(w, L) && d == |Unvisited(w, id)|
    ensures Created(w, RunSteps(o, now, w, id, 0, input)) + 1 <= RunBound(6 * L, d)
    decreases Unvisited(w, id), 0, StepsLeft(w, id, 0), 8, 1
  {
    RunStepsBound(o, now, w, id, 0, input, L, d, 6 * ChildBound(6 * L, d));
    Distribute(StepsLeft(w, id, 0), L, ChildBound(6 * L, d));
  }

  lemma {:induction false} RunStepsBound(o: Oracle, now: int, w: World, id: nat, index: nat, value: Value, L: nat, d: nat,
                                         c: nat)
    requires Valid(w) && id < |w.runs| && StepsBounded(w, L) && d == |Unvisited(w, id)|
    requires c == 6 * ChildBound(6 * L, d)
    ensures Created(w, RunSteps(o, now, w, id, index, value)) <= Times(StepsLeft(w, id, index), c)
    decreases Unvisited(w, id), 0, StepsLeft(w, id, index), 8, 0
  {
    var left := StepsLeft(w, id, index);
    if left > 0 {
      var (w1, result) := Turn(o, now, w, id, index, value);
      LoopUnfold(o, now, w, id, index, value);
      assert Created(w, w1) <= c by {
        TurnBound(o, now, w, id, index, value, L, d);
      }
      if result.Some? {
        RunStepsBound(o, now, w1, id, index + 1, result.value, L, d, c);
        OneMore(left, c, Created(w, w1), Created(w1, RunSteps(o, now, w1, id, index + 1, result.value)));
      } else {
        OneMore(left, c, Created(w, w1), 0);
      }
    }
  }

  lemma {:induction false} TurnBound(o: Oracle, now: int, w: World, id: nat, index: nat, value: Value, L: nat, d: nat)
    requires Valid(w) && id < |w.runs| && index < |StepsOf(w, id)| && StepsBounded(w, L) && d == |Unvisited(w, id)|
    ensures Created(w, Turn(o, now, w, id, index, value).0) <= 6 * ChildBound(6 * L, d)
    decreases Unvisited(w, id), 0, |StepsOf(w, id)| - index, 7, 0
  {
    var u := ChildBound(6 * L, d);
    SixTimes(u);
    AttemptsBound(o, now, w, id, index, value, 0, L, d, u);
  }

  lemma OneMore(n: nat, c: nat, first: int, later: int)
    requires n > 0 && first <= c && later <= Times(n - 1, c)
    ensures first + later <= Times(n, c)
  {
  }

  lemma {:induction false} AttemptsBound(o: Oracle, now: int, w: World, id: nat, index: nat, value: Value, attempt: nat,
                                         L: nat, d: nat, u: nat)
    requires Valid(w) && id < |w.runs| && index < |StepsOf(w, id)| && StepsBounded(w, L) && d == |Unvisited(w, id)|
    requires attempt <= Retries(StepsOf(w, id)[index])
    requires u == ChildBound(6 * L, d)
    ensures Created(w, Attempts(o, now, w, id, index, value, attempt).0) <= Times(6 - attempt, u)
    decreases Unvisited(w, id), 0, |StepsOf(w, id)| - index, 6 - attempt, 1
  {
    InvokeBound(o, now, w, id, index, value, attempt, L, d);
    AttemptsUnfold(o, now, w, id, index, value, attempt);
    var (w1, outcome) := Invoke(o, now, w, id, index, value, attempt);
    FrameKeepsUnvisited(w, w1, id);
    var later := 0;
    if !outcome.Ok? && attempt < Retries(StepsOf(w, id)[index]) {
      AttemptsBound(o, now, w1, id, index, value, attempt + 1, L, d, u);
      later := Created(w1, Attempts(o, now, w1, id, index, value, attempt + 1).0);
    }
    OneMore(6 - attempt, u, Created(w, w1), later);
  }

  lemma VisitOne(all: set<int>, seen: set<int>, target: int)
    requires target in all - seen
    ensures |all - seen| == |all - ({target} + seen)| + 1
  {
    assert all - seen == (all - ({target} + seen)) + {target};
  }

  lemma {:induction false} InvokeBound(o: Oracle, now: int, w: World, id: nat, index: nat, value: Value, attempt: nat,
                                       L: nat, d: nat)
    requires Valid(w) && id < |w.runs| && index < |StepsOf(w, id)| && attempt <= 5 && StepsBounded(w, L)
    requires d == |Unvisited(w, id)|
    ensures Created(w, Invoke(o, now, w, id, index, value, attempt).0) <= ChildBound(6 * L, d)
    decreases Unvisited(w, id), 0, |StepsOf(w, id)| - index, 6 - attempt, 0
  {
    var tool := StepsOf(w, id)[index].tool;
    if tool.Handoff? && tool.target in w.workflows && tool.target !in Ancestry(w.runs, id)
       && w.workflows[tool.target].project == ProjectOf(w, id)
    {
      VisitOne(w.workflows.Keys, Ancestry(w.runs, id), tool.target);
      assert ParentAncestry(w.runs, Some(id), |w.runs|) == Ancestry(w.runs, id);
      StartRunBound(o, now, w, tool.target, value, Some(id), tool.maxSteps, w.runs[id].role, L, d - 1);
    } else {
      assert |Invoke(o, now, w, id, index, value, attempt).0.runs| == |w.runs|;
    }
  }

  /** The bound as a power sum, for a run a user starts. */
  lemma {:induction false} RunsCreatedByOneCall(o: Oracle, now: int, w: World, workflow: int, input: Value, maxSteps: int,
                                                role: string, L: nat)
    requires Valid(w) && StepsBounded(w, L) && workflow in w.workflows
    ensures Created(w, StartRun(o, now, w, workflow, input, None, maxSteps, role).0)
            <= GeometricSum(6 * L, |w.workflows| - 1)
  {
    assert |w.workflows.Keys - {workflow}| == |w.workflows| - 1;
    assert w.workflows.Keys - ({workflow} + ParentAncestry(w.runs, None, |w.runs|)) == w.workflows.Keys - {workflow};
    StartRunBound(o, now, w, workflow, input, None, maxSteps, role, L, |w.workflows| - 1);
    RunBoundIsGeometric(6 * L, |w.workflows| - 1);
  }
}
