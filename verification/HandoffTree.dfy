/**
  The shape of the runs handoffs create: chains of handoffs never repeat a workflow, and
  `agent_tree` shows every descendant of a run exactly once.
  */
module HandoffTree {
  import opened Prelude
  import opened Json
  import opened Runs
  import opened Interpreter

  /** The number of runs on the path from a run up to its root. */
  function Depth(runs: seq<Row>, id: nat): nat
    requires ParentsFirst(runs) && id < |runs|
    decreases id
  {
    1 + (match runs[id].parent
         case None => 0
         case Some(p) => Depth(runs, p))
  }

  /** A run and its ancestors. */
  function Lineage(runs: seq<Row>, id: nat): set<nat>
    requires ParentsFirst(runs) && id < |runs|
    decreases id
  {
    {id} + (match runs[id].parent
            case None => {}
            case Some(p) => Lineage(runs, p))
  }

  /** As many runs as the path has. */
  lemma {:induction false} DepthCountsLineage(runs: seq<Row>, id: nat)
    requires ParentsFirst(runs) && id < |runs|
    ensures Depth(runs, id) == |Lineage(runs, id)|
    decreases id
  {
    if runs[id].parent.Some? {
      DepthCountsLineage(runs, runs[id].parent.value);
      LineageBelow(runs, runs[id].parent.value);
    }
  }

  lemma {:induction false} PathStable(runs: seq<Row>, runs': seq<Row>, id: nat)
    requires ParentsFirst(runs) && ParentsFirst(runs') && id < |runs| <= |runs'|
    requires SameTree(runs, runs')
    ensures Depth(runs', id) == Depth(runs, id) && Ancestry(runs', id) == Ancestry(runs, id)
    ensures Lineage(runs', id) == Lineage(runs, id)
    decreases id
  {
    AncestryStable(runs, runs', id);
    if runs[id].parent.Some? {
      PathStable(runs, runs', runs[id].parent.value);
    }
  }

  ghost predicate SameTree(runs: seq<Row>, runs': seq<Row>)
    requires |runs| <= |runs'|
  {
    forall j | 0 <= j < |runs| :: runs'[j].workflow == runs[j].workflow && runs'[j].parent == runs[j].parent
  }

  /** `id` is `top` or below it, and every run on the way down from `top` has a workflow
      that occurs nowhere above it. */
  ghost predicate Below(runs: seq<Row>, top: nat, id: nat)
    requires ParentsFirst(runs) && top < |runs| && id < |runs|
  {
    && top in Lineage(runs, id)
    && Ancestry(runs, top) <= Ancestry(runs, id)
    && Depth(runs, id) - Depth(runs, top) == |Ancestry(runs, id) - Ancestry(runs, top)|
  }

  ghost predicate AllBelow(runs: seq<Row>, top: nat)
    requires ParentsFirst(runs) && top < |runs|
  {
    forall id | top <= id < |runs| :: Below(runs, top, id)
  }

  lemma UpdateKeepsBelow(runs: seq<Row>, runs': seq<Row>, top: nat)
    requires ParentsFirst(runs) && ParentsFirst(runs') && |runs| == |runs'| && top < |runs|
    requires SameTree(runs, runs') && AllBelow(runs, top)
    ensures AllBelow(runs', top)
  {
    PathStable(runs, runs', top);
    forall id | top <= id < |runs'|
      ensures Below(runs', top, id)
    {
      assert Below(runs, top, id);
      PathStable(runs, runs', id);
    }
  }

  /** A handoff out of the ancestry keeps all that. */
  lemma {:induction false} NewRunKeepsBelow(w: World, w1: World, workflow: int, parent: nat, top: nat)
    requires Valid(w) && top <= parent < |w.runs| && AllBelow(w.runs, top)
    requires |w1.runs| == |w.runs| + 1 && w.runs == w1.runs[..|w.runs|] && ParentsFirst(w1.runs)
    requires w1.runs[|w.runs|].workflow == workflow && w1.runs[|w.runs|].parent == Some(parent)
    requires workflow !in Ancestry(w.runs, parent)
    ensures AllBelow(w1.runs, top)
  {
    assert SameTree(w.runs, w1.runs);
    PathStable(w.runs, w1.runs, top);
    forall id | top <= id < |w1.runs|
      ensures Below(w1.runs, top, id)
    {
      if id < |w.runs| {
        assert Below(w.runs, top, id);
        PathStable(w.runs, w1.runs, id);
      } else {
        assert Below(w.runs, top, parent);
        PathStable(w.runs, w1.runs, parent);
        ChildBelow(w1.runs, top, parent, id);
      }
    }
  }

  lemma NewWorkflow(above: set<int>, passed: set<int>, all: set<int>, workflow: int)
    requires all == {workflow} + passed && above <= passed && workflow !in passed
    ensures above <= all && |all - above| == |passed - above| + 1
  {
    assert all - above == {workflow} + (passed - above);
  }

  lemma {:induction false} ChildBelow(runs: seq<Row>, top: nat, parent: nat, id: nat)
    requires ParentsFirst(runs) && top <= parent < id < |runs| && runs[id].parent == Some(parent)
    requires Below(runs, top, parent) && runs[id].workflow !in Ancestry(runs, parent)
    ensures Below(runs, top, id)
  {
    assert ParentAncestry(runs, Some(parent), id) == Ancestry(runs, parent);
    NewWorkflow(Ancestry(runs, top), Ancestry(runs, parent), Ancestry(runs, id), runs[id].workflow);
  }

  lemma {:induction false} HandoffKeepsBelow(o: Oracle, now: int, w: World, workflow: int, input: Value, parent: nat,
                                             maxSteps: int, role: string, top: nat)
    requires Valid(w) && top <= parent < |w.runs| && AllBelow(w.runs, top)
    requires workflow !in Ancestry(w.runs, parent)
    ensures AllBelow(StartRun(o, now, w, workflow, input, Some(parent), maxSteps, role).0.runs, top)
    decreases w.workflows.Keys - ({workflow} + ParentAncestry(w.runs, Some(parent), |w.runs|)), 1, 0, 0, 0
  {
    if StartRun(o, now, w, workflow, input, Some(parent), maxSteps, role).1.Success? {
      StartRunEntersLoop(o, now, w, workflow, input, Some(parent), maxSteps, role);
      var w1 := Started(w, workflow, input, Some(parent), maxSteps, role);
      NewRunKeepsBelow(w, w1, workflow, parent, top);
      RunStepsKeepsBelow(o, now, w1, |w.runs|, 0, input, top);
    }
  }

  lemma {:induction false} RunStepsKeepsBelow(o: Oracle, now: int, w: World, id: nat, index: nat, value: Value, top: nat)
    requires Valid(w) && top <= id < |w.runs| && AllBelow(w.runs, top)
    ensures AllBelow(RunSteps(o, now, w, id, index, value).runs, top)
    decreases Unvisited(w, id), 0, StepsLeft(w, id, index), 8, 0
  {
    if index >= |StepsOf(w, id)| {
      UpdateKeepsBelow(w.runs, RunSteps(o, now, w, id, index, value).runs, top);
    } else {
      TurnKeepsBelow(o, now, w, id, index, value, top);
      var (w1, result) := Turn(o, now, w, id, index, value);
      FrameKeepsUnvisited(w, w1, id);
      if result.Some? {
        RunStepsKeepsBelow(o, now, w1, id, index + 1, result.value, top);
      }
    }
  }

  lemma {:induction false} TurnKeepsBelow(o: Oracle, now: int, w: World, id: nat, index: nat, value: Value, top: nat)
    requires Valid(w) && top <= id < |w.runs| && index < |StepsOf(w, id)| && AllBelow(w.runs, top)
    ensures AllBelow(Turn(o, now, w, id, index, value).0.runs, top)
    decreases Unvisited(w, id), 0, |StepsOf(w, id)| - index, 7, 0
  {
    var row := w.runs[id];
    var step := StepsOf(w, id)[index];
    var w' := Turn(o, now, w, id, index, value).0;
    if row.status == Cancelled || index >= row.maxSteps || !RoleAllowed(step, row.role) || step.tool.Approval? {
      UpdateKeepsBelow(w.runs, w'.runs, top);
    } else {
      AttemptsKeepsBelow(o, now, w, id, index, value, 0, top);
      UpdateKeepsBelow(Attempts(o, now, w, id, index, value, 0).0.runs, w'.runs, top);
    }
  }

  lemma {:induction false} AttemptsKeepsBelow(o: Oracle, now: int, w: World, id: nat, index: nat, value: Value, attempt: nat,
                                              top: nat)
    requires Valid(w) && top <= id < |w.runs| && index < |StepsOf(w, id)| && AllBelow(w.runs, top)
    requires attempt <= Retries(StepsOf(w, id)[index])
    ensures AllBelow(Attempts(o, now, w, id, index, value, attempt).0.runs, top)
    decreases Unvisited(w, id), 0, |StepsOf(w, id)| - index, 6 - attempt, 1
  {
    InvokeKeepsBelow(o, now, w, id, index, value, attempt, top);
    var (w1, outcome) := Invoke(o, now, w, id, index, value, attempt);
    FrameKeepsUnvisited(w, w1, id);
    if !outcome.Ok? && attempt < Retries(StepsOf(w, id)[index]) {
      AttemptsKeepsBelow(o, now, w1, id, index, value, attempt + 1, top);
    }
  }

  lemma {:induction false} InvokeKeepsBelow(o: Oracle, now: int, w: World, id: nat, index: nat, value: Value, attempt: nat,
                                            top: nat)
    requires Valid(w) && top <= id < |w.runs| && index < |StepsOf(w, id)| && attempt <= 5 && AllBelow(w.runs, top)
    ensures AllBelow(Invoke(o, now, w, id, index, value, attempt).0.runs, top)
    decreases Unvisited(w, id), 0, |StepsOf(w, id)| - index, 6 - attempt, 0
  {
    var tool := StepsOf(w, id)[index].tool;
    if tool.Handoff? && tool.target in w.workflows && tool.target !in Ancestry(w.runs, id)
       && w.workflows[tool.target].project == ProjectOf(w, id)
    {
      HandoffKeepsBelow(o, now, w, tool.target, value, id, tool.maxSteps, w.runs[id].role, top);
    } else {
      assert Invoke(o, now, w, id, index, value, attempt).0.runs == w.runs;
    }
  }

  /** Whatever table a run is started in, and under whatever parent: every run the
      call creates hangs below the started one, and along every chain of handoffs
      from there each workflow is new, to the chain and to all ancestors. */
  lemma {:induction false} HandoffChainsNeverRepeat(o: Oracle, now: int, w: World, workflow: int, input: Value,
                                                    parent: Option<nat>, maxSteps: int, role: string, id: nat)
    requires Valid(w) && |w.runs| <= id < |StartRun(o, now, w, workflow, input, parent, maxSteps, role).0.runs|
    ensures Below(StartRun(o, now, w, workflow, input, parent, maxSteps, role).0.runs, |w.runs|, id)
  {
    StartRunEntersLoop(o, now, w, workflow, input, parent, maxSteps, role);
    var w1 := Started(w, workflow, input, parent, maxSteps, role);
    assert Ancestry(w1.runs, |w.runs|) - Ancestry(w1.runs, |w.runs|) == {};
    RunStepsKeepsBelow(o, now, w1, |w.runs|, 0, input, |w.runs|);
  }

  /** So a chain of handoffs is no longer than the workflows it may still visit. */
  lemma {:induction false} HandoffDepthBounded(o: Oracle, now: int, w: World, workflow: int, input: Value,
                                               parent: Option<nat>, maxSteps: int, role: string, id: nat)
    requires Valid(w) && |w.runs| <= id < |StartRun(o, now, w, workflow, input, parent, maxSteps, role).0.runs|
    ensures var runs := StartRun(o, now, w, workflow, input, parent, maxSteps, role).0.runs;
      Depth(runs, id) - Depth(runs, |w.runs|)
      <= |w.workflows.Keys - ({workflow} + ParentAncestry(w.runs, parent, |w.runs|))|
  {
    HandoffChainsNeverRepeat(o, now, w, workflow, input, parent, maxSteps, role, id);
    StartRunEntersLoop(o, now, w, workflow, input, parent, maxSteps, role);
    var w1 := Started(w, workflow, input, parent, maxSteps, role);
    var w' := StartRun(o, now, w, workflow, input, parent, maxSteps, role).0;
    AncestryAreWorkflows(w', id);
    AncestryStable(w1.runs, w'.runs, |w.runs|);
    NewRowAncestry(w, w1, workflow, parent);
    SubsetSize(Ancestry(w'.runs, id) - Ancestry(w'.runs, |w.runs|),
               w.workflows.Keys - ({workflow} + ParentAncestry(w.runs, parent, |w.runs|)));
  }

  /** The chain above a started run is the caller's choice: it repeats a workflow
      exactly if the parent's chain does, or already has the workflow, as every
      replay's has. */
  lemma {:induction false} ChainAboveRepeatsExactly(w: World, workflow: int, input: Value, parent: nat, maxSteps: int,
                                                    role: string)
    requires Valid(w) && workflow in w.workflows && parent < |w.runs|
    ensures var w1 := Started(w, workflow, input, Some(parent), maxSteps, role);
      && ParentsFirst(w1.runs)
      && (|Ancestry(w1.runs, |w.runs|)| < Depth(w1.runs, |w.runs|) <==>
            |Ancestry(w.runs, parent)| < Depth(w.runs, parent) || workflow in Ancestry(w.runs, parent))
  {
    var w1 := Started(w, workflow, input, Some(parent), maxSteps, role);
    NewRowAncestry(w, w1, workflow, Some(parent));
    PathStable(w.runs, w1.runs, parent);
    AncestryAtMostDepth(w.runs, parent);
    if workflow in Ancestry(w.runs, parent) {
      assert {workflow} + Ancestry(w.runs, parent) == Ancestry(w.runs, parent);
    }
  }

  lemma {:induction false} AncestryAtMostDepth(runs: seq<Row>, id: nat)
    requires ParentsFirst(runs) && id < |runs|
    ensures |Ancestry(runs, id)| <= Depth(runs, id)
    decreases id
  {
    if runs[id].parent.Some? {
      AncestryAtMostDepth(runs, runs[id].parent.value);
    }
  }

  lemma {:induction false} AncestryAreWorkflows(w: World, id: nat)
    requires Valid(w) && id < |w.runs|
    ensures Ancestry(w.runs, id) <= w.workflows.Keys
    decreases id
  {
    if w.runs[id].parent.Some? {
      AncestryAreWorkflows(w, w.runs[id].parent.value);
    }
  }

  lemma SubsetSize(a: set<int>, b: set<int>)
    requires a <= b
    ensures |a| <= |b|
  {
    assert b == a + (b - a);
  }

  /******* agent_tree *******/

  datatype Tree = Node(run: nat, children: seq<Tree>)

  /** `SELECT id FROM runs WHERE parent_run_id=? ORDER BY started_at` */
  function ChildIds(runs: seq<Row>, id: nat, from: nat): (children: seq<nat>)
    ensures forall c | c in children :: from <= c < |runs| && runs[c].parent == Some(id)
    decreases if from < |runs| then |runs| - from else 0
  {
    if from >= |runs| then []
    else if runs[from].parent == Some(id) then [from] + ChildIds(runs, id, from + 1)
    else ChildIds(runs, id, from + 1)
  }

  function AgentTree(runs: seq<Row>, id: nat): Tree
    requires ParentsFirst(runs) && id < |runs|
    decreases |runs| - id, 0
  {
    Node(id, AgentForest(runs, id, ChildIds(runs, id, 0)))
  }

  function AgentForest(runs: seq<Row>, id: nat, children: seq<nat>): seq<Tree>
    requires ParentsFirst(runs) && id < |runs|
    requires forall c | c in children :: c < |runs| && runs[c].parent == Some(id)
    decreases |runs| - id - 1, |children| + 1
  {
    if children == [] then []
    else
      assert children[0] in children;
      [AgentTree(runs, children[0])] + AgentForest(runs, id, children[1..])
  }

  function Listed(t: Tree): multiset<nat> {
    multiset{t.run} + ListedForest(t.children)
  }

  function ListedForest(ts: seq<Tree>): multiset<nat> {
    if ts == [] then multiset{} else Listed(ts[0]) + ListedForest(ts[1..])
  }

  /** How many of `ids` lie on the lineage of `r`. */
  function CountOn(ids: seq<nat>, lineage: set<nat>): nat {
    if ids == [] then 0 else (if ids[0] in lineage then 1 else 0) + CountOn(ids[1..], lineage)
  }

  lemma {:induction false} LineageBelow(runs: seq<Row>, id: nat)
    requires ParentsFirst(runs) && id < |runs|
    ensures forall a | a in Lineage(runs, id) :: a <= id
    decreases id
  {
    if runs[id].parent.Some? {
      LineageBelow(runs, runs[id].parent.value);
    }
  }

  /** Below an ancestor, a lineage passes through exactly one of its children. */
  lemma {:induction false} OneChildOnLineage(runs: seq<Row>, id: nat, r: nat) returns (c: nat)
    requires ParentsFirst(runs) && id < |runs| && r < |runs| && id in Lineage(runs, r) && r != id
    ensures c < |runs| && runs[c].parent == Some(id) && c in Lineage(runs, r)
    ensures forall d | d < |runs| && d in Lineage(runs, r) && runs[d].parent == Some(id) :: d == c
    decreases r
  {
    var p := runs[r].parent.value;
    if p == id {
      c := r;
      LineageBelow(runs, p);
    } else {
      c := OneChildOnLineage(runs, id, p);
    }
  }

  lemma {:induction false} ChildOnLineageMeansParentToo(runs: seq<Row>, id: nat, c: nat, r: nat)
    requires ParentsFirst(runs) && r < |runs| && c < |runs| && c in Lineage(runs, r) && runs[c].parent == Some(id)
    ensures id in Lineage(runs, r) && r != id
    decreases r
  {
    LineageBelow(runs, r);
    if r != c {
      ChildOnLineageMeansParentToo(runs, id, c, runs[r].parent.value);
    }
  }

  lemma {:induction false} CountChildren(runs: seq<Row>, id: nat, from: nat, lineage: set<nat>, c: nat)
    requires c < |runs| && runs[c].parent == Some(id) && c in lineage
    requires forall d | d < |runs| && d in lineage && runs[d].parent == Some(id) :: d == c
    ensures CountOn(ChildIds(runs, id, from), lineage) == if from <= c then 1 else 0
    decreases if from < |runs| then |runs| - from else 0
  {
    if from < |runs| {
      CountChildren(runs, id, from + 1, lineage, c);
      if runs[from].parent == Some(id) {
        assert ChildIds(runs, id, from)[1..] == ChildIds(runs, id, from + 1);
      }
    }
  }

  lemma {:induction false} CountNone(ids: seq<nat>, lineage: set<nat>)
    requires forall d | d in ids :: d !in lineage
    ensures CountOn(ids, lineage) == 0
  {
    if ids != [] {
      assert ids[0] in ids;
      CountNone(ids[1..], lineage);
    }
  }

  /** `agent_tree(id)` lists a run once if `id` is the run itself or one of its
      ancestors, and not at all otherwise. */
  lemma {:induction false} AgentTreeListsDescendantsOnce(runs: seq<Row>, id: nat, r: nat)
    requires ParentsFirst(runs) && id < |runs| && r < |runs|
    ensures Listed(AgentTree(runs, id))[r] == if id in Lineage(runs, r) then 1 else 0
    decreases |runs| - id, 0
  {
    var children := ChildIds(runs, id, 0);
    var lineage := Lineage(runs, r);
    ForestCounts(runs, id, children, r);
    if r == id {
      forall d | d in children
        ensures d !in lineage
      { LineageBelow(runs, r); }
      CountNone(children, lineage);
    } else if id in lineage {
      var c := OneChildOnLineage(runs, id, r);
      CountChildren(runs, id, 0, lineage, c);
    } else {
      forall d | d in children
        ensures d !in lineage
      {
        if d in lineage {
          ChildOnLineageMeansParentToo(runs, id, d, r);
        }
      }
      CountNone(children, lineage);
    }
  }

  lemma {:induction false} ForestCounts(runs: seq<Row>, id: nat, children: seq<nat>, r: nat)
    requires ParentsFirst(runs) && id < |runs| && r < |runs|
    requires forall c | c in children :: c < |runs| && runs[c].parent == Some(id)
    ensures ListedForest(AgentForest(runs, id, children))[r] == CountOn(children, Lineage(runs, r))
    decreases |runs| - id - 1, |children| + 1
  {
    if children != [] {
      assert children[0] in children;
      assert forall c | c in children[1..] :: c in children;
      AgentTreeListsDescendantsOnce(runs, children[0], r);
      ForestCounts(runs, id, children[1..], r);
      assert AgentForest(runs, id, children)[1..] == AgentForest(runs, id, children[1..]);
    }
  }
}
