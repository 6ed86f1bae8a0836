/**
  The service as it runs in one thread: tables that methods update in place.
  Each method is tied to the row functions of Runs or to the Interpreter.
  An approval is addressed by its run and its position in that run.
  */
module AgentOps {
  import opened Prelude
  import opened Json
  import opened Runs
  import I = Interpreter

  /******* Specification of the operations that visit many rows *******/

  /** The status `list_approvals` derives at `now`. */
  function EffectiveStatus(a: ApprovalRow, now: int): ApprovalStatus {
    if a.status == Pending && a.Due(now) then Expired else a.status
  }

  datatype ListedApproval = ListedApproval(run: nat, approval: nat, status: ApprovalStatus)

  /** The two clock readings of one listing: for the status it shows, then for its filter. */
  datatype Clock = Clock(shown: int, filtered: int)

  predicate Shown(a: ApprovalRow, filter: Option<ApprovalStatus>, t: Clock) {
    filter.None? || EffectiveStatus(a, t.filtered) == filter.value
  }

  function ListRow(run: nat, row: Row, filter: Option<ApprovalStatus>, t: Clock, k: nat): seq<ListedApproval>
    requires k <= |row.approvals|
  {
    if k == 0 then []
    else ListRow(run, row, filter, t, k - 1)
         + (if Shown(row.approvals[k - 1], filter, t)
            then [ListedApproval(run, k - 1, EffectiveStatus(row.approvals[k - 1], t.shown))] else [])
  }

  function ListTable(runs: seq<Row>, filter: Option<ApprovalStatus>, t: Clock): seq<ListedApproval> {
    if runs == [] then []
    else
      var last := |runs| - 1;
      ListTable(runs[..last], filter, t) + ListRow(last, runs[last], filter, t, |runs[last].approvals|)
  }

  function ExpireTable(runs: seq<Row>, now: int): seq<Row> {
    seq(|runs|, i requires 0 <= i < |runs| => ExpireRow(runs[i], now))
  }

  function SweptInRow(row: Row, now: int): set<nat> {
    set k | 0 <= k < |row.approvals| && Sweepable(row.approvals[k], now)
  }

  function SweptInTable(runs: seq<Row>, now: int): nat {
    if runs == [] then 0 else SweptInTable(runs[..|runs| - 1], now) + |SweptInRow(runs[|runs| - 1], now)|
  }

  function RequeueTable(runs: seq<Row>): seq<Row> {
    seq(|runs|, i requires 0 <= i < |runs| => RequeueRow(runs[i]))
  }

  predicate Incomplete(row: Row) {
    row.status == Queued || row.status == Running
  }

  function IncompleteIds(runs: seq<Row>): seq<nat> {
    if runs == [] then []
    else IncompleteIds(runs[..|runs| - 1]) + (if Incomplete(runs[|runs| - 1]) then [|runs| - 1] else [])
  }

  /******* Derived expiry agrees with the sweep *******/

  lemma SweepKeepsEffectiveStatus(row: Row, now: int, later: int, k: nat)
    requires k < |row.approvals| && now <= later
    ensures |ExpireRow(row, now).approvals| == |row.approvals|
    ensures EffectiveStatus(ExpireRow(row, now).approvals[k], later) == EffectiveStatus(row.approvals[k], later)
  {
  }

  /** A listing shows the same before and after the sweep, now and ever after. */
  lemma {:induction false} ListingUnaffectedBySweep(runs: seq<Row>, filter: Option<ApprovalStatus>, now: int, t: Clock)
    requires now <= t.shown && now <= t.filtered
    ensures ListTable(ExpireTable(runs, now), filter, t) == ListTable(runs, filter, t)
  {
    if runs != [] {
      var last := |runs| - 1;
      ListingUnaffectedBySweep(runs[..last], filter, now, t);
      assert ExpireTable(runs, now)[..last] == ExpireTable(runs[..last], now);
      RowListingUnaffectedBySweep(last, runs[last], filter, now, t, |runs[last].approvals|);
    }
  }

  lemma {:induction false} RowListingUnaffectedBySweep(run: nat, row: Row, filter: Option<ApprovalStatus>, now: int,
                                                       t: Clock, k: nat)
    requires k <= |row.approvals| && now <= t.shown && now <= t.filtered
    ensures |ExpireRow(row, now).approvals| == |row.approvals|
    ensures ListRow(run, ExpireRow(row, now), filter, t, k) == ListRow(run, row, filter, t, k)
  {
    if k > 0 {
      RowListingUnaffectedBySweep(run, row, filter, now, t, k - 1);
      SweepKeepsEffectiveStatus(row, now, t.shown, k - 1);
      SweepKeepsEffectiveStatus(row, now, t.filtered, k - 1);
    }
  }

  lemma {:induction false} RowListingIsExact(run: nat, row: Row, filter: Option<ApprovalStatus>, t: Clock, k: nat,
                                             entry: ListedApproval)
    requires k <= |row.approvals|
    ensures entry in ListRow(run, row, filter, t, k) <==>
              && entry.run == run && entry.approval < k
              && entry.status == EffectiveStatus(row.approvals[entry.approval], t.shown)
              && (filter.None? || filter.value == EffectiveStatus(row.approvals[entry.approval], t.filtered))
  {
    if k > 0 {
      RowListingIsExact(run, row, filter, t, k - 1, entry);
    }
  }

  lemma {:induction false} ListingIsExact(runs: seq<Row>, filter: Option<ApprovalStatus>, t: Clock, entry: ListedApproval)
    ensures entry in ListTable(runs, filter, t) <==>
              && entry.run < |runs| && entry.approval < |runs[entry.run].approvals|
              && entry.status == EffectiveStatus(runs[entry.run].approvals[entry.approval], t.shown)
              && (filter.None? || filter.value == EffectiveStatus(runs[entry.run].approvals[entry.approval], t.filtered))
  {
    if runs != [] {
      var last := |runs| - 1;
      ListingIsExact(runs[..last], filter, t, entry);
      RowListingIsExact(last, runs[last], filter, t, |runs[last].approvals|, entry);
    }
  }

  /** An entry shows another status than the filter asked for exactly if its approval
      expired between the two readings: it then reads as pending among the expired. */
  lemma {:induction false} ListedUnderOtherStatusExactly(runs: seq<Row>, filter: ApprovalStatus, t: Clock,
                                                         entry: ListedApproval)
    requires entry in ListTable(runs, Some(filter), t) && t.shown <= t.filtered
    ensures entry.run < |runs| && entry.approval < |runs[entry.run].approvals|
    ensures var a := runs[entry.run].approvals[entry.approval];
      entry.status != filter <==> a.status == Pending && !a.Due(t.shown) && a.Due(t.filtered)
    ensures entry.status != filter ==> entry.status == Pending && filter == Expired
  {
    ListingIsExact(runs, Some(filter), t, entry);
  }

  /** A decision gets past the status and expiry checks exactly for the approvals a
      listing whose filter is read at that moment shows as pending. */
  lemma {:induction false} DecidableExactlyWhenListedPending(runs: seq<Row>, id: nat, k: nat, decision: Decision,
                                                             role: string, t: Clock)
    requires id < |runs| && t.shown <= t.filtered
    ensures DecisionOutcome(runs[id], k, decision, role, t.filtered) in {RoleDenied, Resumed, RunRejected}
            <==> ListedApproval(id, k, Pending) in ListTable(runs, Some(Pending), t)
  {
    ListingIsExact(runs, Some(Pending), t, ListedApproval(id, k, Pending));
  }

  /** `expire_approvals` is idempotent: a second sweep at the same time finds nothing. */
  lemma {:induction false} SecondSweepFindsNothing(runs: seq<Row>, now: int)
    ensures SweptInTable(ExpireTable(runs, now), now) == 0
    ensures ExpireTable(ExpireTable(runs, now), now) == ExpireTable(runs, now)
  {
    if runs != [] {
      var last := |runs| - 1;
      SecondSweepFindsNothing(runs[..last], now);
      assert ExpireTable(runs, now)[..last] == ExpireTable(runs[..last], now);
      assert SweptInRow(ExpireRow(runs[last], now), now) == {};
    }
  }

  lemma {:induction false} SweptOneMore(runs: seq<Row>, id: nat, now: int)
    requires id < |runs|
    ensures SweptInTable(runs[..id + 1], now) == SweptInTable(runs[..id], now) + |SweptInRow(runs[id], now)|
  {
    assert runs[..id + 1][..id] == runs[..id];
  }

  /** The approvals a sweep expires: pending ones whose time has come. */
  function DueIn(runs: seq<Row>, now: int): set<(nat, nat)> {
    set id: nat, k: nat | id < |runs| && k < |runs[id].approvals| && runs[id].approvals[k].status == Pending
                          && runs[id].approvals[k].expiresAt.Some? && runs[id].approvals[k].expiresAt.value <= now
      :: (id, k)
  }

  lemma PairsOf(id: nat, s: set<nat>, pairs: set<(nat, nat)>)
    requires pairs == set k | k in s :: (id, k)
    ensures |pairs| == |s|
  {
    if s == {} {
      assert pairs == {};
    } else {
      var k :| k in s;
      var rest := set j | j in s - {k} :: (id, j);
      assert pairs == rest + {(id, k)};
      PairsOf(id, s - {k}, rest);
    }
  }

  /** The count a sweep reports is the number of approvals it expires. */
  lemma {:induction false} SweepCountsTheDue(runs: seq<Row>, now: int)
    ensures SweptInTable(runs, now) == |DueIn(runs, now)|
  {
    if runs == [] {
      assert DueIn(runs, now) == {};
    } else {
      var last := |runs| - 1;
      var init := runs[..last];
      var pairs := set k | k in SweptInRow(runs[last], now) :: (last, k);
      SweepCountsTheDue(init, now);
      PairsOf(last, SweptInRow(runs[last], now), pairs);
      DueInLast(runs, last, init, now, pairs);
    }
  }

  lemma DueInLast(runs: seq<Row>, last: nat, init: seq<Row>, now: int, pairs: set<(nat, nat)>)
    requires last + 1 == |runs| && init == runs[..last] && pairs == set k | k in SweptInRow(runs[last], now) :: (last, k)
    ensures DueIn(runs, now) == DueIn(init, now) + pairs && DueIn(init, now) !! pairs
  {
    forall id: nat, k: nat
      ensures (id, k) in DueIn(runs, now) <==> (id, k) in DueIn(init, now) + pairs
    {}
  }

  /** A sweep rejects the runs with a due approval, and touches nothing else. */
  lemma SweepIsExact(runs: seq<Row>, now: int, id: nat, k: nat)
    requires id < |runs| && k < |runs[id].approvals|
    ensures var row, after := runs[id], ExpireTable(runs, now)[id];
      && |after.approvals| == |row.approvals|
      && (after.approvals[k] == if (id, k) in DueIn(runs, now) then row.approvals[k].(status := Expired) else row.approvals[k])
      && ((id, k) in DueIn(runs, now) ==>
            after == row.(status := Rejected, error := Some(ApprovalExpired), approvals := after.approvals))
      && ((forall j: nat :: (id, j) !in DueIn(runs, now)) ==> after == row)
  {
    if j :| 0 <= j < |runs[id].approvals| && Sweepable(runs[id].approvals[j], now) {
      assert (id, j) in DueIn(runs, now);
    }
  }

  /** Recovery submits the queued and the running runs, in the order of their ids. */
  lemma {:induction false} IncompleteExactly(runs: seq<Row>)
    ensures forall id: nat :: id in IncompleteIds(runs) <==> id < |runs| && (runs[id].status == Queued || runs[id].status == Running)
    ensures forall j, k | 0 <= j < k < |IncompleteIds(runs)| :: IncompleteIds(runs)[j] < IncompleteIds(runs)[k]
  {
    if runs != [] {
      var init := runs[..|runs| - 1];
      IncompleteExactly(init);
      forall k | 0 <= k < |IncompleteIds(init)|
        ensures IncompleteIds(init)[k] < |runs| - 1
      { assert IncompleteIds(init)[k] in IncompleteIds(init); }
    }
  }

  /******* The service *******/

  class Service {
    const oracle: Oracle
    var workflows: map<int, I.Workflow>
    var runs: seq<Row>
    var memory: Memory
    var secrets: Secrets
    var queue: seq<nat>

    constructor (oracle: Oracle, workflows: map<int, I.Workflow>, secrets: Secrets)
      ensures Valid() && Db() == I.World(workflows, [], map[], secrets) && queue == [] && this.oracle == oracle
    {
      this.oracle := oracle;
      this.workflows := workflows;
      this.secrets := secrets;
      this.runs := [];
      this.memory := map[];
      this.queue := [];
    }

    function Db(): I.World
      reads this
    {
      I.World(workflows, runs, memory, secrets)
    }

    ghost predicate Valid()
      reads this
    {
      I.Valid(Db())
    }

    /** `start_run` for immediate execution. */
    method StartRun(workflow: int, input: Value, parent: Option<nat>, maxSteps: int, role: string, now: int)
      returns (r: Result<nat, Error>)
      requires Valid()
      modifies this
      ensures Valid() && queue == old(queue)
      ensures (Db(), r) == I.StartRun(oracle, now, old(Db()), workflow, input, parent, maxSteps, role)
      decreases workflows.Keys - ({workflow} + I.ParentAncestry(runs, parent, |runs|)), 1, 0, 0, 0
    {
      if workflow !in workflows || (parent.Some? && parent.value >= |runs|) {
        return Failure(NotFound);
      }
      if parent.Some? && workflows[runs[parent.value].workflow].project != workflows[workflow].project {
        return Failure(WrongProject);
      }
      var id := |runs|;
      runs := runs + [NewRow(workflow, parent, Running, input, maxSteps, role)];
      I.NewRowAncestry(old(Db()), Db(), workflow, parent);
      Execute(id, now);
      return Success(id);
    }

    /** `start_run` for the queue. */
    method EnqueueRun(workflow: int, input: Value, parent: Option<nat>, maxSteps: int, role: string)
      returns (r: Result<nat, Error>)
      requires Valid()
      modifies this`runs, this`queue
      ensures Valid()
      ensures r.Success? <==> workflow in workflows && I.ParentFits(old(Db()), workflow, parent)
      ensures r.Failure? ==> runs == old(runs) && queue == old(queue)
      ensures r.Failure? ==>
        r.error == if workflow in workflows && (parent.Some? ==> parent.value < |old(runs)|) then WrongProject else NotFound
      ensures r.Success? ==> r.value == |old(runs)| && queue == old(queue) + [r.value]
      ensures r.Success? ==> runs == old(runs) + [NewRow(workflow, parent, Queued, input, maxSteps, role)]
    {
      if workflow !in workflows || (parent.Some? && parent.value >= |runs|) {
        return Failure(NotFound);
      }
      if parent.Some? && workflows[runs[parent.value].workflow].project != workflows[workflow].project {
        return Failure(WrongProject);
      }
      r := Success(|runs|);
      runs := runs + [NewRow(workflow, parent, Queued, input, maxSteps, role)];
      queue := queue + [r.value];
    }

    /** `_execute`: the step loop around the retry loop. */
    method Execute(id: nat, now: int)
      requires Valid() && id < |runs|
      modifies this
      ensures Valid() && queue == old(queue)
      ensures Db() == I.Execute(oracle, now, old(Db()), id)
      decreases I.Unvisited(Db(), id), 0, |I.StepsOf(Db(), id)| + 1, 0, 0
    {
      var row := runs[id];
      if row.status == Cancelled {
        return;
      }
      runs := runs[id := row.(status := Running)];
      I.FrameKeepsUnvisited(old(Db()), Db(), id);
      var steps := workflows[row.workflow].steps;
      var value := CurrentValue(row);
      var index := row.currentStep;
      ghost var all := I.RunSteps(oracle, now, Db(), id, index, value);
      ghost var unvisited := I.Unvisited(Db(), id);
      assert all == I.Execute(oracle, now, old(Db()), id);
      while index < |steps|
        invariant Valid() && id < |runs| && queue == old(queue)
        invariant steps == I.StepsOf(Db(), id) && I.Unvisited(Db(), id) == unvisited
        invariant I.RunSteps(oracle, now, Db(), id, index, value) == all
      {
        I.LoopUnfold(oracle, now, Db(), id, index, value);
        var result := RunStep(id, index, value, now);
        if result.None? {
          return;
        }
        value := result.value;
        index := index + 1;
      }
      runs := runs[id := FinishRow(runs[id], value)];
    }

    /** One turn of the step loop: the new value, or nothing when the loop must stop. */
    method RunStep(id: nat, index: nat, value: Value, now: int) returns (result: Option<Value>)
      requires Valid() && id < |runs| && index < |I.StepsOf(Db(), id)|
      modifies this
      ensures Valid() && queue == old(queue)
      ensures (Db(), result) == I.Turn(oracle, now, old(Db()), id, index, value)
      decreases I.Unvisited(Db(), id), 0, |I.StepsOf(Db(), id)| - index, 8, 0
    {
      var row := runs[id];
      var step := workflows[row.workflow].steps[index];
      if row.status == Cancelled {
        return None;
      }
      if index >= row.maxSteps {
        runs := runs[id := StopRow(row, BudgetExceeded)];
        return None;
      }
      if !RoleAllowed(step, row.role) {
        runs := runs[id := StopRow(row, PermissionDenied)];
        return None;
      }
      if step.tool.Approval? {
        PauseForApproval(id, index, step, value, now);
        return None;
      }
      var outcome := TryStep(id, index, value, now);
      result := RecordOutcome(id, index, step, value, outcome);
    }

    /** `_pause_for_approval`: the waiting span, then the approval and the run. */
    method PauseForApproval(id: nat, index: nat, step: Step, value: Value, now: int)
      requires id < |runs| && step.tool.Approval?
      modifies this`runs
      ensures runs == if SpanFree(old(runs)[id], index)
        then old(runs)[id := PauseRow(WithSpan(old(runs)[id], WaitingSpan(index, step, value)), index, step.tool, value, now)]
        else old(runs)
    {
      if SpanFree(runs[id], index) {
        runs := runs[id := WithSpan(runs[id], WaitingSpan(index, step, value))];
        runs := runs[id := PauseRow(runs[id], index, step.tool, value, now)];
      }
    }

    /** `_record_span` and the update of the run that follows it. */
    method RecordOutcome(id: nat, index: nat, step: Step, value: Value, outcome: Outcome) returns (result: Option<Value>)
      requires Valid() && id < |runs|
      modifies this`runs
      ensures Valid() && (Db(), result) == I.Record(old(Db()), id, index, step, value, outcome)
    {
      if runs[id].status == Cancelled || !SpanFree(runs[id], index) {
        return None;
      }
      if outcome.Err? {
        runs := runs[id := WithSpan(runs[id], FailedSpan(index, step, value, outcome.error))];
        runs := runs[id := FailRow(runs[id], index, outcome.error)];
        assert runs == old(runs)[id := runs[id]];
        return None;
      }
      runs := runs[id := WithSpan(runs[id], CompletedSpan(index, step, value, outcome.value))];
      runs := runs[id := AdvanceRow(runs[id], index, outcome.value)];
      assert runs == old(runs)[id := runs[id]];
      return Some(outcome.value);
    }

    /** The retry loop of one step. */
    method TryStep(id: nat, index: nat, value: Value, now: int) returns (outcome: Outcome)
      requires Valid() && id < |runs| && index < |I.StepsOf(Db(), id)|
      modifies this
      ensures Valid() && queue == old(queue)
      ensures (Db(), outcome) == I.Attempts(oracle, now, old(Db()), id, index, value, 0)
      decreases I.Unvisited(Db(), id), 0, |I.StepsOf(Db(), id)| - index, 7, 0
    {
      var retries := Retries(workflows[runs[id].workflow].steps[index]);
      var attempt := 0;
      ghost var before := Db();
      ghost var all := I.Attempts(oracle, now, before, id, index, value, 0);
      outcome := InvokeTool(id, index, value, attempt, now);
      I.FrameKeepsUnvisited(before, Db(), id);
      I.AttemptsUnfold(oracle, now, before, id, index, value, attempt);
      while outcome.Err? && attempt < retries
        invariant attempt <= retries && Valid() && id < |runs| && workflows == old(workflows)
        invariant queue == old(queue) && I.Unvisited(Db(), id) == old(I.Unvisited(Db(), id))
        invariant runs[id] == old(runs)[id]
        invariant all == if outcome.Ok? || attempt == retries then (Db(), outcome)
                         else I.Attempts(oracle, now, Db(), id, index, value, attempt + 1)
        decreases retries - attempt
      {
        before := Db();
        attempt := attempt + 1;
        outcome := InvokeTool(id, index, value, attempt, now);
        I.FrameKeepsUnvisited(before, Db(), id);
        I.AttemptsUnfold(oracle, now, before, id, index, value, attempt);
      }
    }

    /** `_invoke_tool`, `_invoke_llm` and `_apply_agent_tool`. */
    method InvokeTool(id: nat, index: nat, value: Value, attempt: nat, now: int) returns (outcome: Outcome)
      requires Valid() && id < |runs| && index < |I.StepsOf(Db(), id)| && attempt <= 5
      modifies this
      ensures Valid() && queue == old(queue)
      ensures (Db(), outcome) == I.Invoke(oracle, now, old(Db()), id, index, value, attempt)
      ensures var tool := old(I.StepsOf(Db(), id)[index].tool);
        (tool.Handoff? || tool.MemoryRead?) && outcome.Ok? ==> Clean(outcome.value)
      decreases I.Unvisited(Db(), id), 0, |I.StepsOf(Db(), id)| - index, 6 - attempt, 0
    {
      var project := workflows[runs[id].workflow].project;
      var tool := workflows[runs[id].workflow].steps[index].tool;
      match tool
      case Builtin(_, _, credential) =>
        if credential.None? || credential.value == "" {
          outcome := oracle(tool, None, value, attempt);
        } else if (project, credential.value) in secrets {
          outcome := oracle(tool, Some(secrets[(project, credential.value)]), value, attempt);
        } else {
          outcome := Err(MissingCredential(credential.value));
        }
      case Approval(_, _) =>
        outcome := oracle(tool, None, value, attempt);
      case MemoryWrite(namespace, key, stored) =>
        memory := memory[(project, namespace, key) := if stored.Some? then stored.value else value];
        outcome := Ok(value);
      case MemoryRead(namespace, key) =>
        if (project, namespace, key) in memory {
          outcome := Ok(Redact(memory[(project, namespace, key)]));
          RedactFixesExactlyCleanValues(memory[(project, namespace, key)]);
        } else {
          outcome := Err(NotFound);
        }
      case Handoff(target, maxSteps) =>
        if target !in workflows {
          return Err(NotFound);
        }
        if workflows[target].project != project {
          return Err(WrongProject);
        }
        var ancestry := WorkflowAncestry(id);
        if target in ancestry {
          return Err(LoopDetected);
        }
        assert target in I.Unvisited(Db(), id);
        var child := StartRun(target, value, Some(id), maxSteps, runs[id].role, now);
        if runs[child.value].status == Completed {
          outcome := Ok(Redact(runs[child.value].output));
          RedactFixesExactlyCleanValues(runs[child.value].output);
        } else {
          outcome := Err(ChildEnded(child.value, runs[child.value].status));
        }
    }

    /** `_workflow_ancestry`: walk up the parents. */
    method WorkflowAncestry(id: nat) returns (found: set<int>)
      requires Valid() && id < |runs|
      ensures found == I.Ancestry(runs, id)
    {
      found := {};
      var current: Option<nat> := Some(id);
      ghost var below: nat := id + 1;
      while current.Some?
        invariant below <= |runs| && (current.Some? ==> current.value < below)
        invariant found + I.ParentAncestry(runs, current, below) == I.Ancestry(runs, id)
        decreases below, current.Some?
      {
        found := found + {runs[current.value].workflow};
        below := current.value;
        current := runs[current.value].parent;
      }
    }

    /** `_execute_queued`. */
    method ExecuteQueued(id: nat, now: int)
      requires Valid() && id < |runs|
      modifies this
      ensures Valid() && queue == old(queue)
      ensures Db() == (match ClaimRow(old(runs)[id])
                       case None => old(Db())
                       case Some(row) => I.Execute(oracle, now, I.SetRow(old(Db()), id, row), id))
    {
      var claimed := ClaimRow(runs[id]);
      if claimed.None? {
        return;
      }
      runs := runs[id := claimed.value];
      Execute(id, now);
    }

    /** One turn of a queue worker. */
    method WorkOnce(now: int)
      requires Valid() && queue != [] && queue[0] < |runs|
      modifies this
      ensures Valid() && queue == old(queue)[1..] && |old(runs)| <= |runs|
      ensures forall id | 0 <= id < |old(runs)| && id != old(queue)[0] :: runs[id] == old(runs)[id]
      ensures old(runs)[old(queue)[0]].status != Queued ==> Db() == old(Db())
    {
      var id := queue[0];
      queue := queue[1..];
      ExecuteQueued(id, now);
    }

    /** `decide_approval`. */
    method DecideApproval(id: nat, k: nat, decision: Decision, role: string, now: int) returns (result: DecisionResult)
      requires Valid() && id < |runs|
      modifies this
      ensures Valid() && queue == old(queue)
      ensures result == DecisionOutcome(old(runs)[id], k, decision, role, now)
      ensures var decided := I.SetRow(old(Db()), id, DecideRow(old(runs)[id], k, decision, role, now));
        Db() == if result.Resumed? then I.Execute(oracle, now, decided, id) else decided
    {
      var row := runs[id];
      if k >= |row.approvals| {
        return NoSuchApproval;
      }
      var a := row.approvals[k];
      if a.status != Pending {
        return AlreadyDecided;
      }
      if a.expiresAt.Some? && a.expiresAt.value <= now {
        runs := runs[id := row.(approvals := row.approvals[k := a.(status := Expired)])];
        return TooLate;
      }
      if !ApproverAllowed(a, role) {
        return RoleDenied;
      }
      if decision.Reject? {
        var note := if decision.note == "" then "approval rejected" else decision.note;
        row := row.(approvals := row.approvals[k := a.(status := Declined)]);
        row := row.(status := Rejected, error := Some(RejectedWith(note)));
        runs := runs[id := row];
        return RunRejected;
      }
      row := row.(approvals := row.approvals[k := a.(status := Approved)]);
      if decision.edited.Some? {
        row := row.(output := decision.edited.value);
      }
      row := row.(spans := SettleSpans(row.spans, a.stepIndex, decision.edited));
      row := row.(status := Running, currentStep := a.stepIndex + 1);
      runs := runs[id := row];
      Execute(id, now);
      return Resumed;
    }

    /** `cancel_run`. */
    method CancelRun(id: nat) returns (ok: bool)
      requires Valid() && id < |runs|
      modifies this`runs
      ensures Valid()
      ensures ok <==> old(runs)[id].status in {Queued, Running, WaitingApproval}
      ensures |runs| == |old(runs)| && forall j | 0 <= j < |runs| && (j != id || !ok) :: runs[j] == old(runs)[j]
      ensures ok ==>
        && runs[id] == old(runs)[id].(status := Cancelled, error := Some(CancelledByOperator), approvals := runs[id].approvals)
        && |runs[id].approvals| == |old(runs)[id].approvals|
        && forall k | 0 <= k < |runs[id].approvals| ::
             runs[id].approvals[k] == if old(runs)[id].approvals[k].status == Pending
                                      then old(runs)[id].approvals[k].(status := Declined) else old(runs)[id].approvals[k]
    {
      var cancelled := CancelRow(runs[id]);
      ok := cancelled.Some?;
      if ok {
        runs := runs[id := cancelled.value];
      }
    }

    /** `expire_approvals`: sweeps every run, and reports how many approvals expired. */
    method ExpireApprovals(now: int) returns (count: nat)
      requires Valid()
      modifies this`runs
      ensures Valid()
      ensures runs == ExpireTable(old(runs), now)
      ensures count == SweptInTable(old(runs), now) == |DueIn(old(runs), now)|
    {
      count := 0;
      var id := 0;
      while id < |runs|
        invariant id <= |runs| == |old(runs)|
        invariant forall j | 0 <= j < id :: runs[j] == ExpireRow(old(runs)[j], now)
        invariant forall j | id <= j < |runs| :: runs[j] == old(runs)[j]
        invariant count == SweptInTable(old(runs)[..id], now)
      {
        SweptOneMore(old(runs), id, now);
        count := count + |SweptInRow(runs[id], now)|;
        runs := runs[id := ExpireRow(runs[id], now)];
        id := id + 1;
      }
      assert old(runs)[..id] == old(runs);
      SweepCountsTheDue(old(runs), now);
    }

    /** `list_approvals`, in table order. */
    method ListApprovals(filter: Option<ApprovalStatus>, t: Clock) returns (listed: seq<ListedApproval>)
      requires Valid()
      ensures listed == ListTable(runs, filter, t)
    {
      listed := [];
      var id := 0;
      while id < |runs|
        invariant id <= |runs|
        invariant listed == ListTable(runs[..id], filter, t)
      {
        assert runs[..id + 1][..id] == runs[..id];
        ghost var before := listed;
        var k := 0;
        while k < |runs[id].approvals|
          invariant k <= |runs[id].approvals|
          invariant listed == before + ListRow(id, runs[id], filter, t, k)
        {
          var a := runs[id].approvals[k];
          if filter.None? || EffectiveStatus(a, t.filtered) == filter.value {
            listed := listed + [ListedApproval(id, k, EffectiveStatus(a, t.shown))];
          }
          k := k + 1;
        }
        id := id + 1;
      }
      assert runs[..id] == runs;
    }

    /** `recover_incomplete_runs`, at process start. */
    method RecoverIncompleteRuns() returns (count: nat)
      requires Valid()
      modifies this`runs, this`queue
      ensures Valid()
      ensures runs == RequeueTable(old(runs))
      ensures |runs| == |old(runs)|
      ensures forall id | 0 <= id < |runs| ::
        runs[id] == if old(runs)[id].status == Running then old(runs)[id].(status := Queued) else old(runs)[id]
      ensures queue == old(queue) + IncompleteIds(old(runs))
      ensures count == |IncompleteIds(old(runs))|
    {
      var found := [];
      var id := 0;
      while id < |runs|
        invariant id <= |runs|
        invariant found == IncompleteIds(runs[..id])
      {
        assert runs[..id + 1][..id] == runs[..id];
        if Incomplete(runs[id]) {
          found := found + [id];
        }
        id := id + 1;
      }
      assert runs[..id] == runs;
      runs := RequeueTable(runs);
      var i := 0;
      while i < |found|
        invariant i <= |found|
        invariant runs == RequeueTable(old(runs))
        invariant queue == old(queue) + found[..i]
      {
        queue := queue + [found[i]];
        i := i + 1;
      }
      count := |found|;
    }
  }
}
