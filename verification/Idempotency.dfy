/**
  Concurrent `start_run` calls with idempotency keys: look the key up, insert, and
  fall back to a second lookup when the unique index on (workflow, key) refuses the
  insert.  Every lookup and every insert is one transaction; runs are not deleted.
  */
module Idempotency {
  import opened Prelude

  /** A run and how often a caller executed or submitted it. */
  datatype Run = Run(workflow: int, key: Option<string>, owner: nat, launches: nat)

  datatype Progress = AtLookup | AtInsert | AtFallback | Inserted(run: nat) | Returned(run: nat) | Raised

  datatype Caller = Caller(workflow: int, key: Option<string>, at: Progress)

  datatype System = System(runs: seq<Run>, callers: seq<Caller>)

  /** `if idempotency_key:` is false for the empty key. */
  predicate Usable(key: Option<string>) {
    key.Some? && key.value != ""
  }

  predicate Matches(r: Run, workflow: int, key: Option<string>) {
    r.workflow == workflow && r.key == key
  }

  /** The first run of a workflow with a key: `find_run_by_idempotency_key`. */
  function Find(runs: seq<Run>, workflow: int, key: Option<string>): (found: Option<nat>)
    ensures found.Some? ==> found.value < |runs| && Matches(runs[found.value], workflow, key)
    ensures found.None? ==> forall i | 0 <= i < |runs| :: !Matches(runs[i], workflow, key)
  {
    if runs == [] then None
    else
      var earlier := Find(runs[..|runs| - 1], workflow, key);
      if earlier.Some? then earlier
      else if Matches(runs[|runs| - 1], workflow, key) then Some(|runs| - 1)
      else None
  }

  /** The next transaction of one caller. */
  function Step(s: System, c: nat): System
    requires c < |s.callers|
  {
    var caller := s.callers[c];
    var found := Find(s.runs, caller.workflow, caller.key);
    match caller.at
    case AtLookup =>
      Move(s, c, if Usable(caller.key) && found.Some? then Returned(found.value) else AtInsert)
    case AtInsert =>
      if caller.key.Some? && found.Some? then Move(s, c, AtFallback)
      else
        Move(s.(runs := s.runs + [Run(caller.workflow, caller.key, c, 0)]), c, Inserted(|s.runs|))
    case AtFallback =>
      Move(s, c, if Usable(caller.key) && found.Some? then Returned(found.value) else Raised)
    case Inserted(run) =>
      if run < |s.runs| then
        Move(s.(runs := s.runs[run := s.runs[run].(launches := s.runs[run].launches + 1)]), c, Returned(run))
      else s
    case _ => s
  }

  function Move(s: System, c: nat, at: Progress): System
    requires c < |s.callers|
  {
    s.(callers := s.callers[c := s.callers[c].(at := at)])
  }

  /** Any schedule of the callers; numbers that name no caller do nothing. */
  function RunAll(s: System, schedule: seq<nat>): System
    decreases |schedule|
  {
    if schedule == [] then s
    else RunAll(if schedule[0] < |s.callers| then Step(s, schedule[0]) else s, schedule[1..])
  }

  ghost predicate Initial(s: System) {
    && s.runs == []
    && forall c | 0 <= c < |s.callers| :: s.callers[c].at == AtLookup
  }

  /** The partial unique index on (workflow_id, idempotency_key). */
  ghost predicate Unique(runs: seq<Run>) {
    forall i, j | 0 <= i < j < |runs| && runs[i].key.Some? :: !Matches(runs[j], runs[i].workflow, runs[i].key)
  }

  ghost predicate CallerOk(runs: seq<Run>, c: nat, caller: Caller) {
    match caller.at
    case Inserted(run) =>
      run < |runs| && runs[run].owner == c && runs[run].launches == 0 && Matches(runs[run], caller.workflow, caller.key)
    case Returned(run) =>
      && run < |runs| && Matches(runs[run], caller.workflow, caller.key)
      && (!Usable(caller.key) ==> runs[run].owner == c)
    case AtFallback => caller.key.Some? && exists i :: 0 <= i < |runs| && Matches(runs[i], caller.workflow, caller.key)
    case Raised => caller.key == Some("")
    case _ => true
  }

  ghost predicate RunOk(s: System, id: nat)
    requires id < |s.runs|
  {
    var r := s.runs[id];
    && r.owner < |s.callers|
    && (r.launches == 1 || (r.launches == 0 && s.callers[r.owner].at == Inserted(id)))
  }

  ghost predicate Inv(s: System) {
    && Unique(s.runs)
    && (forall c | 0 <= c < |s.callers| :: CallerOk(s.runs, c, s.callers[c]))
    && (forall id | 0 <= id < |s.runs| :: RunOk(s, id))
  }

  lemma StepKeepsInv(s: System, c: nat)
    requires Inv(s) && c < |s.callers|
    ensures Inv(Step(s, c))
  {
    StepKeepsRuns(s, c);
    forall d | 0 <= d < |s.callers|
      ensures CallerOk(Step(s, c).runs, d, Step(s, c).callers[d])
    {
      StepKeepsCaller(s, c, d);
    }
  }

  lemma StepKeepsCaller(s: System, c: nat, d: nat)
    requires Inv(s) && c < |s.callers| && d < |s.callers|
    ensures |Step(s, c).callers| == |s.callers| && CallerOk(Step(s, c).runs, d, Step(s, c).callers[d])
  {
    var after := Step(s, c);
    assert CallerOk(s.runs, c, s.callers[c]) && CallerOk(s.runs, d, s.callers[d]);
    if s.callers[d].at.AtFallback? {
      var i :| 0 <= i < |s.runs| && Matches(s.runs[i], s.callers[d].workflow, s.callers[d].key);
      assert Matches(after.runs[i], s.callers[d].workflow, s.callers[d].key);
    }
  }

  lemma StepKeepsRuns(s: System, c: nat)
    requires Inv(s) && c < |s.callers|
    ensures Unique(Step(s, c).runs)
    ensures forall id | 0 <= id < |Step(s, c).runs| :: RunOk(Step(s, c), id)
  {
    var after := Step(s, c);
    assert CallerOk(s.runs, c, s.callers[c]);
    forall id | 0 <= id < |after.runs|
      ensures RunOk(after, id)
    {
      if id < |s.runs| { assert RunOk(s, id); }
    }
  }

  lemma {:induction false} RunAllKeepsInv(s: System, schedule: seq<nat>)
    requires Inv(s)
    ensures Inv(RunAll(s, schedule)) && |RunAll(s, schedule).callers| == |s.callers|
    ensures forall c | 0 <= c < |s.callers| ::
              && RunAll(s, schedule).callers[c].workflow == s.callers[c].workflow
              && RunAll(s, schedule).callers[c].key == s.callers[c].key
    decreases |schedule|
  {
    if schedule != [] {
      if schedule[0] < |s.callers| {
        StepKeepsInv(s, schedule[0]);
        RunAllKeepsInv(Step(s, schedule[0]), schedule[1..]);
      } else {
        RunAllKeepsInv(s, schedule[1..]);
      }
    }
  }

  /** In every interleaving: calls with one workflow and one key that return, return
      the same run; it is the only run of that key; and once its creator has
      returned it has been launched exactly once. */
  lemma {:induction false} OneRunPerKey(s: System, schedule: seq<nat>, c: nat, d: nat)
    requires Initial(s) && c < |s.callers| && d < |s.callers|
    requires s.callers[c].workflow == s.callers[d].workflow && s.callers[c].key == s.callers[d].key
    requires Usable(s.callers[c].key)
    ensures |RunAll(s, schedule).callers| == |s.callers|
    ensures var end := RunAll(s, schedule);
      && !end.callers[c].at.Raised?
      && (end.callers[c].at.Returned? && end.callers[d].at.Returned? ==> end.callers[c].at.run == end.callers[d].at.run)
      && (end.callers[c].at.Returned? ==>
            var id := end.callers[c].at.run;
            && id < |end.runs| && Matches(end.runs[id], s.callers[c].workflow, s.callers[c].key)
            && (forall i | 0 <= i < |end.runs| && Matches(end.runs[i], s.callers[c].workflow, s.callers[c].key) :: i == id)
            && end.runs[id].launches <= 1
            && end.runs[id].owner < |end.callers|
            && (end.callers[end.runs[id].owner].at.Returned? ==> end.runs[id].launches == 1))
  {
    RunAllKeepsInv(s, schedule);
    var end := RunAll(s, schedule);
    assert CallerOk(end.runs, c, end.callers[c]) && CallerOk(end.runs, d, end.callers[d]);
    if end.callers[c].at.Returned? {
      assert RunOk(end, end.callers[c].at.run);
    }
  }

  /** Every call ends within four transactions of its own. */
  lemma CallsTerminate(s: System, c: nat)
    requires Inv(s) && c < |s.callers|
    ensures var end := Step(Step(Step(Step(s, c), c), c), c);
      c < |end.callers| && (end.callers[c].at.Returned? || end.callers[c].at.Raised?)
  {
    StepKeepsInv(s, c);
    var s1 := Step(s, c);
    StepKeepsInv(s1, c);
    var s2 := Step(s1, c);
    StepKeepsInv(s2, c);
    var s3 := Step(s2, c);
    assert CallerOk(s.runs, c, s.callers[c]) && CallerOk(s1.runs, c, s1.callers[c]);
    assert CallerOk(s2.runs, c, s2.callers[c]) && CallerOk(s3.runs, c, s3.callers[c]);
  }

  /** A call that nobody races with: under a key that is taken it adds no run, and
      returns the run of that key or, for the empty key, raises; otherwise it adds one
      run, launches it once and returns it. */
  lemma CallAlone(s: System, c: nat, caller: Caller, taken: Option<nat>)
    requires Inv(s) && c < |s.callers| && caller == s.callers[c] && caller.at == AtLookup
    requires taken.Some? ==> taken.value < |s.runs| && caller.key.Some?
    requires taken.Some? ==> s.runs[taken.value].workflow == caller.workflow && s.runs[taken.value].key == caller.key
    requires taken.None? && caller.key.Some? ==>
               forall i | 0 <= i < |s.runs| :: s.runs[i].workflow != caller.workflow || s.runs[i].key != caller.key
    ensures var end := Step(Step(Step(s, c), c), c);
      && |end.callers| == |s.callers|
      && (taken.Some? ==> end.runs == s.runs)
      && (taken.Some? && caller.key != Some("") ==> Step(s, c) == end && end.callers[c].at == Returned(taken.value))
      && (taken.Some? && caller.key == Some("") ==> end.callers[c].at == Raised)
      && (taken.None? ==> end.runs == s.runs + [Run(caller.workflow, caller.key, c, 1)]
                          && end.callers[c].at == Returned(|s.runs|))
  {
    var s1 := Step(s, c);
    var s2 := Step(s1, c);
    assert s1.runs == s.runs;
    if taken.Some? {
      assert Matches(s.runs[taken.value], caller.workflow, caller.key);
      assert Find(s.runs, caller.workflow, caller.key) == taken;
    } else {
      assert s2.callers[c].at == Inserted(|s.runs|);
    }
  }

  /** The empty key is stored but never looked up: the index then refuses the second
      call, which raises instead of returning the run.  No other key raises. */
  lemma EmptyKeyRaisesExactlyWhenTaken(s: System, c: nat)
    requires Inv(s) && c < |s.callers| && s.callers[c].at == AtLookup
    ensures var end := Step(Step(Step(s, c), c), c);
      end.callers[c].at.Raised? <==>
        s.callers[c].key == Some("") && exists i | 0 <= i < |s.runs| :: Matches(s.runs[i], s.callers[c].workflow, s.callers[c].key)
  {
    var s1 := Step(s, c);
    var s2 := Step(s1, c);
    assert s1.runs == s.runs;
  }
}
