/**
  What a reader may conclude from a run's row, whatever happened to the run: the
  result is the one an uninterrupted fold over the steps gives.
  */
module RunRefinement {
  import opened Prelude
  import opened Json
  import opened Runs
  import opened RunProtocol

  ghost predicate Extends(log: map<nat, Verdict>, older: map<nat, Verdict>) {
    forall i | i in older :: i in log && log[i] == older[i]
  }

  /** The rest of the run from the step its row names. */
  ghost function Boundary(cfg: Config, log: map<nat, Verdict>, st: State): Final {
    Fold(cfg, log, st.memory, st.row.currentStep, CurrentValue(st.row), st.row.output, st.row.spans)
  }

  /** The rest of a run that waits, or is about to wait, with `value`. */
  ghost function Awaiting(cfg: Config, log: map<nat, Verdict>, st: State, value: Value): Final
    requires st.row.currentStep <= |st.row.spans|
  {
    if st.row.currentStep < |cfg.steps| then
      FoldApproval(cfg, log, st.memory, st.row.currentStep, value, st.row.spans[..st.row.currentStep])
    else FinalOf(st.row, st.memory)
  }

  /** The result the run reaches from here if nothing interferes any more and
      approvals are settled as `log` says. */
  ghost function Fate(cfg: Config, log: map<nat, Verdict>, st: State): Final
    requires st.row.currentStep <= |st.row.spans|
  {
    var row := st.row;
    if st.execs != [] then
      match st.execs[0]
      case Pausing(_, value) => Awaiting(cfg, log, st, value)
      case SpanDone(_, Ok(output)) => Fold(cfg, log, st.memory, row.currentStep + 1, output, output, row.spans)
      case SpanDone(_, Err(error)) => Final(Failed, row.output, Some(error), row.spans, st.memory)
      case _ => Boundary(cfg, log, st)
    else if row.status == WaitingApproval then Awaiting(cfg, log, st, row.output)
    else if row.status.Queued? || row.status.Running? then Boundary(cfg, log, st)
    else FinalOf(st.row, st.memory)
  }

  /** Torn or cancelled, with nobody left to go on. */
  ghost predicate Dead(st: State) {
    st.torn || (st.row.status == Cancelled && st.execs == [])
  }

  /******* No action changes a run's fate *******/

  /** The part of the invariant that speaks of a run in an executor's hands. */
  ghost predicate Held(cfg: Config, st: State) {
    |st.execs| == 1 && Constant(cfg, st.row) && TraceOk(st.row) && Linked(st.row) && ExecOk(cfg, st, st.execs[0])
  }

  lemma InvHeld(cfg: Config, st: State)
    requires Inv(cfg, st)
    ensures st.row.currentStep <= |st.row.spans| && |st.execs| <= 1
    ensures st.execs != [] ==> Held(cfg, st) && (st.row.status == Running || st.row.status == Cancelled)
    ensures st.torn ==> Ahead(st.row) && Gated(cfg, st.row.currentStep)
  {
  }

  lemma {:induction false} CallKeepsFate(cfg: Config, log: map<nat, Verdict>, st: State, index: nat, value: Value, now: int)
    requires Held(cfg, st) && st.execs == [Entered(index, value)] && !st.torn
    requires Gated(cfg, index) && !cfg.steps[index].tool.Approval?
    requires ExecStep(cfg, st, 0, now).row.currentStep <= |ExecStep(cfg, st, 0, now).row.spans|
    ensures Fate(cfg, log, st) == Fate(cfg, log, ExecStep(cfg, st, 0, now))
  {
    CallRepeats(cfg, st.memory, index, value);
    var after := ExecStep(cfg, st, 0, now);
    assert after.execs == [ToolDone(index, value, StepOutcome(cfg, st.memory, index, value))];
    assert after.memory == StepMemory(cfg, st.memory, index, value);
  }

  lemma {:induction false} PausesKeepFate(cfg: Config, log: map<nat, Verdict>, st: State, index: nat, value: Value, now: int)
    requires Held(cfg, st) && st.execs == [Entered(index, value)] && !st.torn
    requires Gated(cfg, index) && cfg.steps[index].tool.Approval?
    requires ExecStep(cfg, st, 0, now).row.currentStep <= |ExecStep(cfg, st, 0, now).row.spans|
    ensures Fate(cfg, log, st) == Fate(cfg, log, ExecStep(cfg, st, 0, now))
  {
    var row := st.row;
    var span := WaitingSpan(index, cfg.steps[index], value);
    NextSpan(row, span);
    assert WithSpan(row, span).spans[..index] == row.spans;
    var after := ExecStep(cfg, st, 0, now);
    assert after.execs == [Pausing(index, value)];
  }

  lemma {:induction false} EnterKeepsFate(cfg: Config, log: map<nat, Verdict>, st: State, index: nat, value: Value, now: int)
    requires Held(cfg, st) && st.execs == [Entered(index, value)] && !st.torn
    requires ExecStep(cfg, st, 0, now).row.currentStep <= |ExecStep(cfg, st, 0, now).row.spans|
    ensures Fate(cfg, log, st) == Fate(cfg, log, ExecStep(cfg, st, 0, now))
  {
    if !Gated(cfg, index) {
      var error := if index >= st.row.maxSteps then BudgetExceeded else PermissionDenied;
      DenyKeepsFate(cfg, log, st, index, value, error, ExecStep(cfg, st, 0, now));
    } else if cfg.steps[index].tool.Approval? {
      PausesKeepFate(cfg, log, st, index, value, now);
    } else {
      CallKeepsFate(cfg, log, st, index, value, now);
    }
  }

  lemma DenyKeepsFate(cfg: Config, log: map<nat, Verdict>, st: State, index: nat, value: Value, error: Error, after: State)
    requires Held(cfg, st) && st.execs == [Entered(index, value)] && !st.torn && !Gated(cfg, index)
    requires error == if index >= st.row.maxSteps then BudgetExceeded else PermissionDenied
    requires after.row == StopRow(st.row, error) && after.memory == st.memory && after.execs == []
    requires after.row.currentStep <= |after.row.spans|
    ensures Fate(cfg, log, st) == Fate(cfg, log, after)
  {
  }

  lemma {:induction false} RecordKeepsFate(cfg: Config, log: map<nat, Verdict>, st: State, index: nat, value: Value,
                                           outcome: Outcome, now: int)
    requires Held(cfg, st) && st.execs == [Recording(index, value, outcome)] && !st.torn
    requires ExecStep(cfg, st, 0, now).row.currentStep <= |ExecStep(cfg, st, 0, now).row.spans|
    ensures Fate(cfg, log, st) == Fate(cfg, log, ExecStep(cfg, st, 0, now))
  {
    NextSpan(st.row, OutcomeSpan(index, cfg.steps[index], value, outcome));
    var after := ExecStep(cfg, st, 0, now);
    assert after.execs == [SpanDone(index, outcome)];
  }

  lemma {:induction false} SpanDoneKeepsFate(cfg: Config, log: map<nat, Verdict>, st: State, index: nat, outcome: Outcome,
                                             now: int)
    requires Held(cfg, st) && st.execs == [SpanDone(index, outcome)]
    requires ExecStep(cfg, st, 0, now).row.currentStep <= |ExecStep(cfg, st, 0, now).row.spans|
    ensures Fate(cfg, log, st) == Fate(cfg, log, ExecStep(cfg, st, 0, now))
  {
    var after := ExecStep(cfg, st, 0, now);
    if outcome.Err? {
      assert after.execs == [];
    }
  }

  lemma {:induction false} PausingKeepsFate(cfg: Config, log: map<nat, Verdict>, st: State, index: nat, value: Value, now: int)
    requires Held(cfg, st) && st.execs == [Pausing(index, value)]
    requires ExecStep(cfg, st, 0, now).row.currentStep <= |ExecStep(cfg, st, 0, now).row.spans|
    ensures Fate(cfg, log, st) == Fate(cfg, log, ExecStep(cfg, st, 0, now))
  {
    assert ExecStep(cfg, st, 0, now).execs == [];
  }

  lemma {:induction false} ExecKeepsFate(cfg: Config, log: map<nat, Verdict>, st: State, k: nat, now: int)
    requires Held(cfg, st) && k == 0 && ExecStep(cfg, st, k, now).row.currentStep <= |ExecStep(cfg, st, k, now).row.spans|
    requires !Dead(ExecStep(cfg, st, k, now))
    ensures Fate(cfg, log, st) == Fate(cfg, log, ExecStep(cfg, st, k, now))
  {
    assert st.execs == [st.execs[0]];
    var after := ExecStep(cfg, st, k, now);
    match st.execs[0]
    case Entered(index, value) => EnterKeepsFate(cfg, log, st, index, value, now);
    case Recording(index, value, outcome) => RecordKeepsFate(cfg, log, st, index, value, outcome, now);
    case SpanDone(index, outcome) => SpanDoneKeepsFate(cfg, log, st, index, outcome, now);
    case Pausing(index, value) => PausingKeepsFate(cfg, log, st, index, value, now);
    case AtStep(index, value) =>
      if index < |cfg.steps| { PassKeepsFate(cfg, log, st, after); } else { FinishKeepsFate(cfg, log, st, value, after); }
    case _ => PassKeepsFate(cfg, log, st, after);
  }

  /** Before its span: the fate is that of the step boundary. */
  predicate BeforeSpan(e: Exec) {
    !e.SpanDone? && !e.Pausing?
  }

  /** A check that is passed, or the launch. */
  lemma PassKeepsFate(cfg: Config, log: map<nat, Verdict>, st: State, after: State)
    requires |st.execs| == 1 && |after.execs| == 1 && BeforeSpan(st.execs[0]) && BeforeSpan(after.execs[0])
    requires st.row.currentStep <= |st.row.spans| && after.memory == st.memory
    requires after.row == st.row || after.row == st.row.(status := Running)
    ensures Fate(cfg, log, st) == Fate(cfg, log, after)
  {
    assert CurrentValue(after.row) == CurrentValue(st.row);
  }

  /** The end of the loop. */
  lemma FinishKeepsFate(cfg: Config, log: map<nat, Verdict>, st: State, value: Value, after: State)
    requires Held(cfg, st) && st.execs[0].AtStep? && st.execs[0].index >= |cfg.steps| && st.execs[0].value == value && !st.torn
    requires after.row == FinishRow(st.row, value) && after.memory == st.memory && after.execs == []
    requires after.row.currentStep <= |after.row.spans|
    ensures Fate(cfg, log, st) == Fate(cfg, log, after)
  {
  }

  /** `Fate` of a waiting run, and what its spans look like. */
  lemma {:induction false} WaitingFate(cfg: Config, log: map<nat, Verdict>, st: State)
    requires Inv(cfg, st) && st.row.status == WaitingApproval
    ensures st.execs == [] && !st.torn
    ensures st.row.currentStep < |cfg.steps| && |st.row.spans| == st.row.currentStep + 1
    ensures st.row.spans
            == st.row.spans[..st.row.currentStep]
               + [WaitingSpan(st.row.currentStep, cfg.steps[st.row.currentStep], st.row.output)]
    ensures Fate(cfg, log, st)
            == FoldApproval(cfg, log, st.memory, st.row.currentStep, st.row.output, st.row.spans[..st.row.currentStep])
  {
  }

  lemma {:induction false} ResumeKeepsFate(cfg: Config, log: map<nat, Verdict>, st: State, k: nat, decision: Decision,
                                           role: string, now: int)
    requires Inv(cfg, st) && DecisionOutcome(st.row, k, decision, role, now) == Resumed
    requires Inv(cfg, DecideStep(st, k, decision, role, now))
    requires Extends(log, DecideStep(st, k, decision, role, now).log)
    ensures st.row.currentStep <= |st.row.spans|
    ensures var after := DecideStep(st, k, decision, role, now); after.row.currentStep <= |after.row.spans|
    ensures Fate(cfg, log, st) == Fate(cfg, log, DecideStep(st, k, decision, role, now))
  {
    var c := st.row.currentStep;
    PendingImpliesWaiting(cfg, st, k);
    WaitingFate(cfg, log, st);
    SettledSpans(st.row, decision.edited);
    var after := DecideStep(st, k, decision, role, now);
    assert after.execs == [Starting];
    assert after.log[c] == log[c] == Given(decision);
  }

  /** Rejecting, or deciding too late, settles the approval as the fold reads it. */
  lemma {:induction false} RefuseKeepsFate(cfg: Config, log: map<nat, Verdict>, st: State, k: nat, decision: Decision,
                                           role: string, now: int)
    requires Inv(cfg, st) && Inv(cfg, DecideStep(st, k, decision, role, now))
    requires DecisionOutcome(st.row, k, decision, role, now) in {TooLate, RunRejected}
    requires Extends(log, DecideStep(st, k, decision, role, now).log)
    ensures st.row.currentStep <= |st.row.spans|
    ensures DecideStep(st, k, decision, role, now).row.currentStep <= |DecideStep(st, k, decision, role, now).row.spans|
    ensures Fate(cfg, log, st) == Fate(cfg, log, DecideStep(st, k, decision, role, now))
  {
    PendingImpliesWaiting(cfg, st, k);
    WaitingFate(cfg, log, st);
    var after := DecideStep(st, k, decision, role, now);
    assert after.log[st.row.currentStep] == log[st.row.currentStep];
  }

  lemma {:induction false} DecideKeepsFate(cfg: Config, log: map<nat, Verdict>, st: State, k: nat, decision: Decision,
                                           role: string, now: int)
    requires Inv(cfg, st) && Inv(cfg, DecideStep(st, k, decision, role, now))
    requires Extends(log, DecideStep(st, k, decision, role, now).log)
    ensures st.row.currentStep <= |st.row.spans|
    ensures DecideStep(st, k, decision, role, now).row.currentStep <= |DecideStep(st, k, decision, role, now).row.spans|
    ensures Fate(cfg, log, st) == Fate(cfg, log, DecideStep(st, k, decision, role, now))
  {
    InvHeld(cfg, st);
    match DecisionOutcome(st.row, k, decision, role, now)
    case Resumed => ResumeKeepsFate(cfg, log, st, k, decision, role, now);
    case TooLate => RefuseKeepsFate(cfg, log, st, k, decision, role, now);
    case RunRejected => RefuseKeepsFate(cfg, log, st, k, decision, role, now);
    case _ => assert DecideStep(st, k, decision, role, now) == st;
  }

  lemma {:induction false} SweepKeepsFate(cfg: Config, log: map<nat, Verdict>, st: State, now: int)
    requires Inv(cfg, st) && Inv(cfg, SweepStep(st, now))
    requires Extends(log, SweepStep(st, now).log)
    ensures st.row.currentStep <= |st.row.spans| && SweepStep(st, now).row.currentStep <= |SweepStep(st, now).row.spans|
    ensures Fate(cfg, log, st) == Fate(cfg, log, SweepStep(st, now))
  {
    SweepEffect(cfg, st, now);
    var after := SweepStep(st, now);
    if after != st {
      WaitingFate(cfg, log, st);
      assert after.log[st.row.currentStep] == log[st.row.currentStep];
    }
  }

  lemma ClaimKeepsFate(cfg: Config, log: map<nat, Verdict>, st: State)
    requires Inv(cfg, st)
    ensures st.row.currentStep <= |st.row.spans| && ClaimStep(st).row.currentStep <= |ClaimStep(st).row.spans|
    ensures Fate(cfg, log, st) == Fate(cfg, log, ClaimStep(st))
  {
    InvHeld(cfg, st);
    var after := ClaimStep(st);
    if st.queue > 0 && st.row.status == Queued {
      TakenUp(cfg, log, st, after);
    } else {
      SameFate(cfg, log, st, after);
    }
  }

  /** Queue entries, cancel requests and history do not enter into a run's fate. */
  lemma SameFate(cfg: Config, log: map<nat, Verdict>, st: State, after: State)
    requires st.row.currentStep <= |st.row.spans|
    requires after.row == st.row && after.memory == st.memory && after.execs == st.execs
    ensures Fate(cfg, log, st) == Fate(cfg, log, after)
  {
  }

  lemma TakenUp(cfg: Config, log: map<nat, Verdict>, st: State, after: State)
    requires st.execs == [] && st.row.status == Queued && st.row.currentStep <= |st.row.spans|
    requires after.execs == [Starting] && after.row == st.row.(status := Running) && after.memory == st.memory
    ensures Fate(cfg, log, st) == Fate(cfg, log, after)
  {
  }

  lemma RecoverKeepsFate(cfg: Config, log: map<nat, Verdict>, st: State)
    requires Inv(cfg, st) && st.execs == []
    ensures st.row.currentStep <= |st.row.spans| && RecoverStep(st).row.currentStep <= |RecoverStep(st).row.spans|
    ensures Fate(cfg, log, st) == Fate(cfg, log, RecoverStep(st))
  {
  }

  lemma CrashKeepsFate(cfg: Config, log: map<nat, Verdict>, st: State, kept: nat, requests: nat)
    requires Inv(cfg, st) && Inv(cfg, CrashStep(st, kept, requests)) && !Dead(CrashStep(st, kept, requests))
    ensures st.row.currentStep <= |st.row.spans|
    ensures var after := CrashStep(st, kept, requests); after.row.currentStep <= |after.row.spans|
    ensures Fate(cfg, log, st) == Fate(cfg, log, CrashStep(st, kept, requests))
  {
    if st.execs != [] {
      assert !st.execs[0].SpanDone? && !st.execs[0].Pausing?;
    }
  }

  lemma CancelKeepsFate(cfg: Config, log: map<nat, Verdict>, st: State)
    requires Inv(cfg, st) && Inv(cfg, CancelWriteStep(st)) && !Dead(CancelWriteStep(st))
    ensures st.row.currentStep <= |st.row.spans| && CancelWriteStep(st).row.currentStep <= |CancelWriteStep(st).row.spans|
    ensures Fate(cfg, log, st) == Fate(cfg, log, CancelWriteStep(st))
  {
  }

  /** No action changes what an uncancelled run will end in; only tearing it, or
      cancelling it for good, does. */
  lemma ApplyKeepsFate(cfg: Config, log: map<nat, Verdict>, st: State, l: Label)
    requires Inv(cfg, st) && Inv(cfg, Apply(cfg, st, l))
    requires !Dead(Apply(cfg, st, l)) && Extends(log, Apply(cfg, st, l).log)
    ensures st.row.currentStep <= |st.row.spans| && Apply(cfg, st, l).row.currentStep <= |Apply(cfg, st, l).row.spans|
    ensures Fate(cfg, log, st) == Fate(cfg, log, Apply(cfg, st, l))
  {
    InvHeld(cfg, st);
    InvHeld(cfg, Apply(cfg, st, l));
    match l
    case Execute(k, now) => if k < |st.execs| { ExecKeepsFate(cfg, log, st, k, now); }
    case Decide(k, decision, role, now) => DecideKeepsFate(cfg, log, st, k, decision, role, now);
    case Sweep(now) => SweepKeepsFate(cfg, log, st, now);
    case CancelCheck => SameFate(cfg, log, st, Apply(cfg, st, l));
    case CancelWrite => CancelKeepsFate(cfg, log, st);
    case Crash(kept, requests) => CrashKeepsFate(cfg, log, st, kept, requests);
    case Claim => ClaimKeepsFate(cfg, log, st);
    case Recover => if st.execs == [] { RecoverKeepsFate(cfg, log, st); }
    case Submit => SameFate(cfg, log, st, Apply(cfg, st, l));
  }

  /******* The fold itself *******/

  /** The fold only ever appends spans, one per step. */
  lemma {:induction false} FoldExtends(cfg: Config, log: map<nat, Verdict>, memory: Memory, index: nat, value: Value,
                                       output: Value, spans: seq<Span>)
    ensures spans <= Fold(cfg, log, memory, index, value, output, spans).spans
    decreases |cfg.steps| - index, 1
  {
    if Gated(cfg, index) {
      if cfg.steps[index].tool.Approval? {
        FoldApprovalExtends(cfg, log, memory, index, value, spans);
      } else {
        match StepOutcome(cfg, memory, index, value)
        case Err(_) =>
        case Ok(result) =>
          FoldExtends(cfg, log, StepMemory(cfg, memory, index, value), index + 1, result, result,
                      spans + [CompletedSpan(index, cfg.steps[index], value, result)]);
      }
    }
  }

  lemma {:induction false} FoldApprovalExtends(cfg: Config, log: map<nat, Verdict>, memory: Memory, index: nat, value: Value,
                                               spans: seq<Span>)
    requires index < |cfg.steps|
    ensures spans <= FoldApproval(cfg, log, memory, index, value, spans).spans
    decreases |cfg.steps| - index, 0
  {
    if index in log && log[index].Given? && log[index].decision.Approve? {
      var edited := log[index].decision.edited;
      var result := if edited.Some? then edited.value else value;
      FoldExtends(cfg, log, memory, index + 1, result, result,
                  spans + [CompletedSpan(index, cfg.steps[index], value, result)]);
    }
  }

  /** A run completes only through every step: one completed span each, chained
      from the input to the output. */
  lemma {:induction false} FoldCompletesThroughEveryStep(cfg: Config, log: map<nat, Verdict>, memory: Memory, index: nat,
                                                         value: Value, output: Value, spans: seq<Span>)
    requires index == |spans| <= |cfg.steps|
    requires forall i | 0 <= i < |spans| :: spans[i].status == SpanCompleted
    requires value == (if index == 0 then cfg.input else spans[index - 1].output)
    ensures var end := Fold(cfg, log, memory, index, value, output, spans);
      end.status == Completed ==>
        && |end.spans| == |cfg.steps|
        && (forall i | 0 <= i < |end.spans| :: end.spans[i].status == SpanCompleted)
        && end.output == (if cfg.steps == [] then cfg.input else end.spans[|cfg.steps| - 1].output)
    decreases |cfg.steps| - index
  {
    if Gated(cfg, index) {
      var approval := cfg.steps[index].tool.Approval?;
      var result := if approval then
          (if index in log && log[index].Given? && log[index].decision.Approve? && log[index].decision.edited.Some?
           then log[index].decision.edited.value else value)
        else StepResult(cfg, memory, index, value);
      FoldCompletesThroughEveryStep(cfg, log, if approval then memory else StepMemory(cfg, memory, index, value), index + 1,
                                    result, result, spans + [CompletedSpan(index, cfg.steps[index], value, result)]);
    }
  }

  ghost function StepResult(cfg: Config, memory: Memory, index: nat, value: Value): Value
    requires index < |cfg.steps|
  {
    match StepOutcome(cfg, memory, index, value)
    case Ok(result) => result
    case Err(_) => Null
  }

  /******* Refinement over whole histories *******/

  /** Spans never contradict the fold, and while the run can still move its fate
      is the fold's result, for every way the remaining approvals may go. */
  ghost predicate Faithful(cfg: Config, memory: Memory, st: State) {
    && Inv(cfg, st) && st.row.currentStep <= |st.row.spans|
    && st.row.spans <= Uninterrupted(cfg, memory, st.log).spans
    && (!Dead(st) ==>
          forall log | Extends(log, st.log) :: Fate(cfg, log, st) == Uninterrupted(cfg, memory, log))
  }

  lemma SpansWithinFate(cfg: Config, st: State)
    requires Inv(cfg, st) && !Dead(st)
    ensures st.row.currentStep <= |st.row.spans| && st.row.spans <= Fate(cfg, st.log, st).spans
  {
    var row := st.row;
    var c := row.currentStep;
    if st.execs != [] {
      match st.execs[0]
      case Pausing(_, value) =>
        assert row.spans == row.spans[..c] + [WaitingSpan(c, cfg.steps[c], value)];
      case SpanDone(_, Ok(output)) => FoldExtends(cfg, st.log, st.memory, c + 1, output, output, row.spans);
      case SpanDone(_, Err(_)) =>
      case _ => FoldExtends(cfg, st.log, st.memory, c, CurrentValue(row), row.output, row.spans);
    } else if row.status == WaitingApproval {
      WaitingFate(cfg, st.log, st);
    } else {
      FoldExtends(cfg, st.log, st.memory, c, CurrentValue(row), row.output, row.spans);
    }
  }

  /** Torn and cancelled runs keep their spans and their verdicts. */
  lemma DeadRunsKeepSpans(cfg: Config, st: State, l: Label)
    requires Inv(cfg, st) && Dead(Apply(cfg, st, l))
    ensures Apply(cfg, st, l).row.spans == st.row.spans && Apply(cfg, st, l).log == st.log
  {
    match l
    case Execute(k, now) =>
      InvHeld(cfg, st);
      if k < |st.execs| {
        assert k == 0;
        DeadExecKeepsSpans(cfg, st, TurnOf(cfg, st.row, st.memory, st.execs[0], now), now);
      }
    case Decide(k, decision, role, now) => DecisionKeepsAlive(cfg, st, k, decision, role, now);
    case Sweep(now) => SweepEffect(cfg, st, now);
    case _ => OthersKeepSpans(cfg, st, l);
  }

  lemma OthersKeepSpans(cfg: Config, st: State, l: Label)
    requires !l.Execute? && !l.Decide? && !l.Sweep?
    ensures Apply(cfg, st, l).row.spans == st.row.spans && Apply(cfg, st, l).log == st.log
  {
  }

  /** A decision that changes anything finds its run alive and leaves it so. */
  lemma DecisionKeepsAlive(cfg: Config, st: State, k: nat, decision: Decision, role: string, now: int)
    requires Inv(cfg, st)
    ensures DecideStep(st, k, decision, role, now) == st || !(Dead(st) || Dead(DecideStep(st, k, decision, role, now)))
  {
    if k < |st.row.approvals| && st.row.approvals[k].status == Pending {
      PendingImpliesWaiting(cfg, st, k);
    }
  }

  lemma DeadExecKeepsSpans(cfg: Config, st: State, t: Turn, now: int)
    requires Held(cfg, st) && (st.torn ==> Ahead(st.row)) && t == TurnOf(cfg, st.row, st.memory, st.execs[0], now)
    requires st.torn || (t.row.status == Cancelled && t.next == None)
    ensures t.row.spans == st.row.spans
  {
    if st.torn {
      TornSlotTaken(st.row);
    } else if st.execs[0].Recording? {
      SlotFree(st.row);
    }
  }

  lemma ApplyKeepsFaithful(cfg: Config, memory: Memory, st: State, l: Label)
    requires Faithful(cfg, memory, st)
    ensures Faithful(cfg, memory, Apply(cfg, st, l))
  {
    var after := Apply(cfg, st, l);
    ApplyKeepsInv(cfg, st, l);
    if Dead(after) {
      DeadRunsKeepSpans(cfg, st, l);
    } else {
      ApplyOnlyGrows(cfg, st, l);
      if Dead(st) {
        DeadStaysDead(cfg, st, l);
      }
      forall log | Extends(log, after.log)
        ensures Fate(cfg, log, after) == Uninterrupted(cfg, memory, log)
      {
        ApplyKeepsFate(cfg, log, st, l);
      }
      SpansWithinFate(cfg, after);
      assert Extends(after.log, after.log);
    }
  }

  lemma DeadStaysDead(cfg: Config, st: State, l: Label)
    requires Inv(cfg, st) && Dead(st)
    ensures Dead(Apply(cfg, st, l))
  {
    match l
    case Decide(k, decision, role, now) => DecisionKeepsAlive(cfg, st, k, decision, role, now);
    case Sweep(now) => SweepEffect(cfg, st, now);
    case _ =>
  }

  /** Verdicts, tearing and lost cancels are never taken back, and an approval leaves
      `pending` at most once. */
  ghost predicate Grows(st: State, after: State) {
    && (st.torn ==> after.torn) && (st.lost ==> after.lost)
    && Extends(after.log, st.log)
    && |st.row.approvals| <= |after.row.approvals|
    && (forall k | 0 <= k < |st.row.approvals| ::
          && after.row.approvals[k].stepIndex == st.row.approvals[k].stepIndex
          && (st.row.approvals[k].status != Pending ==> after.row.approvals[k] == st.row.approvals[k]))
  }

  lemma ExecOnlyGrows(cfg: Config, st: State, k: nat, now: int)
    requires k < |st.execs|
    ensures Grows(st, ExecStep(cfg, st, k, now))
  {
    ApprovalsOnlyAppended(cfg, st.row, st.memory, st.execs[k], now);
  }

  lemma ApprovalsOnlyAppended(cfg: Config, row: Row, memory: Memory, e: Exec, now: int)
    ensures row.approvals <= TurnOf(cfg, row, memory, e, now).row.approvals
  {
  }

  lemma DecideOnlyGrows(st: State, k: nat, decision: Decision, role: string, now: int)
    requires k < |st.row.approvals| && st.row.approvals[k].status == Pending ==> st.row.approvals[k].stepIndex !in st.log
    ensures Grows(st, DecideStep(st, k, decision, role, now))
  {
  }

  lemma ApplyOnlyGrows(cfg: Config, st: State, l: Label)
    requires Inv(cfg, st)
    ensures Grows(st, Apply(cfg, st, l))
  {
    match l
    case Execute(k, now) => if k < |st.execs| { ExecOnlyGrows(cfg, st, k, now); }
    case Decide(k, decision, role, now) =>
      if k < |st.row.approvals| && st.row.approvals[k].status == Pending { PendingImpliesWaiting(cfg, st, k); }
      DecideOnlyGrows(st, k, decision, role, now);
    case Sweep(now) => SweepOnlyGrows(cfg, st, now);
    case _ => OthersOnlyGrow(cfg, st, l);
  }

  lemma OthersOnlyGrow(cfg: Config, st: State, l: Label)
    requires !l.Execute? && !l.Decide? && !l.Sweep?
    ensures Grows(st, Apply(cfg, st, l))
  {
  }

  lemma SweepOnlyGrows(cfg: Config, st: State, now: int)
    requires Inv(cfg, st)
    ensures Grows(st, SweepStep(st, now))
  {
    SweepEffect(cfg, st, now);
  }

  lemma InitialFaithful(cfg: Config, memory: Memory, queued: bool)
    ensures Faithful(cfg, memory, Initial(cfg, memory, queued))
  {
    InitialInv(cfg, memory, queued);
  }

  lemma {:induction false} ReachableFaithful(cfg: Config, memory: Memory, st: State, ls: seq<Label>)
    requires Faithful(cfg, memory, st)
    ensures Faithful(cfg, memory, RunAll(cfg, st, ls))
    decreases |ls|
  {
    if ls != [] {
      ApplyKeepsFaithful(cfg, memory, st, ls[0]);
      ReachableFaithful(cfg, memory, Apply(cfg, st, ls[0]), ls[1..]);
    }
  }

  predicate AtRest(st: State) {
    st.row.status.Completed? || st.row.status.Failed? || st.row.status.Rejected? || st.row.status.WaitingApproval?
  }

  /** Main theorem.  However a run was queued, submitted twice, paused, decided,
      swept, crashed and recovered, and wherever cancels raced with it: where it stops
      without being cancelled, its status, output, reason, spans and project memory
      are those of one uninterrupted fold over its steps and the verdicts given.  A
      cancel that was overwritten leaves its mark in the error column only. */
  lemma {:induction false} InterruptionsDoNotMatter(cfg: Config, memory: Memory, queued: bool, ls: seq<Label>)
    ensures var end := RunAll(cfg, Initial(cfg, memory, queued), ls);
      && (AtRest(end) ==> FinalOf(end.row, end.memory) == Uninterrupted(cfg, memory, end.log))
      && (end.row.status == Completed || end.row.status == WaitingApproval ==>
            end.row.error == if end.lost then Some(CancelledByOperator) else None)
      && end.row.spans <= Uninterrupted(cfg, memory, end.log).spans
  {
    InitialFaithful(cfg, memory, queued);
    ReachableFaithful(cfg, memory, Initial(cfg, memory, queued), ls);
    var end := RunAll(cfg, Initial(cfg, memory, queued), ls);
    assert Extends(end.log, end.log);
    if end.row.status == WaitingApproval {
      WaitingFate(cfg, end.log, end);
    }
  }

  /** The trace invariant, for every state of every history. */
  lemma {:induction false} EveryHistoryIsWellFormed(cfg: Config, memory: Memory, queued: bool, ls: seq<Label>)
    ensures var end := RunAll(cfg, Initial(cfg, memory, queued), ls);
      && TraceOk(end.row)
      && |end.execs| <= 1
      && (end.row.status == Completed ==>
            && |end.row.spans| == |cfg.steps|
            && forall i | 0 <= i < |end.row.spans| :: end.row.spans[i].status == SpanCompleted)
      && (forall j, k | 0 <= j < k < |end.row.approvals| ::
            end.row.approvals[j].stepIndex != end.row.approvals[k].stepIndex)
  {
    InitialInv(cfg, memory, queued);
    ReachableInv(cfg, Initial(cfg, memory, queued), ls);
    InterruptionsDoNotMatter(cfg, memory, queued, ls);
    FoldCompletesThroughEveryStep(cfg, RunAll(cfg, Initial(cfg, memory, queued), ls).log, memory, 0, cfg.input, Null, []);
  }

  lemma {:induction false} HistoryOnlyGrows(cfg: Config, st: State, ls: seq<Label>)
    requires Inv(cfg, st)
    ensures Inv(cfg, RunAll(cfg, st, ls)) && Grows(st, RunAll(cfg, st, ls))
    decreases |ls|
  {
    if ls != [] {
      ApplyKeepsInv(cfg, st, ls[0]);
      ApplyOnlyGrows(cfg, st, ls[0]);
      HistoryOnlyGrows(cfg, Apply(cfg, st, ls[0]), ls[1..]);
    }
  }

  lemma DecidedApproval(st: State, k: nat, decision: Decision, role: string, now: int)
    requires DecisionOutcome(st.row, k, decision, role, now) in {Resumed, RunRejected, TooLate}
    ensures var row := DecideStep(st, k, decision, role, now).row;
      && |row.approvals| == |st.row.approvals|
      && row.approvals[k].status != Pending
      && row.approvals[k].stepIndex == st.row.approvals[k].stepIndex
  {
  }

  /** Approvals are single-use: a decision that counted is the last one any
      approval of that step ever gets, however many approvers race. */
  lemma {:induction false} ApprovalsAreSingleUse(cfg: Config, memory: Memory, queued: bool, before: seq<Label>,
                                                 later: seq<Label>, k: nat, decision: Decision, role: string, now: int,
                                                 k': nat, decision': Decision, role': string, now': int)
    requires DecisionOutcome(RunAll(cfg, Initial(cfg, memory, queued), before).row, k, decision, role, now)
             in {Resumed, RunRejected, TooLate}
    ensures var st := RunAll(cfg, Initial(cfg, memory, queued), before);
      var end := RunAll(cfg, Apply(cfg, st, Decide(k, decision, role, now)), later);
      k' < |end.row.approvals| && end.row.approvals[k'].stepIndex == st.row.approvals[k].stepIndex ==>
        DecisionOutcome(end.row, k', decision', role', now') == AlreadyDecided
  {
    var st := RunAll(cfg, Initial(cfg, memory, queued), before);
    InitialInv(cfg, memory, queued);
    ReachableInv(cfg, Initial(cfg, memory, queued), before);
    var decided := Apply(cfg, st, Decide(k, decision, role, now));
    ApplyKeepsInv(cfg, st, Decide(k, decision, role, now));
    DecidedApproval(st, k, decision, role, now);
    HistoryOnlyGrows(cfg, decided, later);
    var end := RunAll(cfg, decided, later);
    if k' < |end.row.approvals| && end.row.approvals[k'].stepIndex == st.row.approvals[k].stepIndex {
      assert end.row.approvals[k].stepIndex == st.row.approvals[k].stepIndex;
      assert k == k' by {
        assert ApprovalsOk(end);
      }
    }
  }

  /******* Cancellation and terminal rows *******/

  /** Nobody is about to write: no cancel request holds an outdated check (on a row
      that is not cancelled already), and no executor is between a check and a write. */
  ghost predicate Settled(cfg: Config, st: State) {
    (st.cancellers == 0 || st.row.status == Cancelled) && Interruptible(cfg, st)
  }

  lemma CancelledTwice(cfg: Config, st: State)
    requires Inv(cfg, st)
    ensures CancelledRow(st.row) == st.row <==> st.row.status == Cancelled
  {
    if st.row.status == Cancelled {
      assert CancelledRow(st.row).approvals == st.row.approvals;
    }
  }

  /** An executor of a cancelled run writes to it exactly from between a check and its write. */
  lemma CancelledExecWrites(cfg: Config, st: State, t: Turn, now: int)
    requires Held(cfg, st) && st.row.status == Cancelled && t == TurnOf(cfg, st.row, st.memory, st.execs[0], now)
    ensures t.row != st.row <==> MidWrite(cfg, st.row, st.execs[0])
    ensures !MidWrite(cfg, st.row, st.execs[0]) && t.next.Some? ==> !MidWrite(cfg, st.row, t.next.value)
  {
    if st.execs[0].SpanDone? && st.execs[0].outcome.Ok? {
      assert t.row.currentStep != st.row.currentStep;
    }
  }

  /** When an action rewrites a terminal run. */
  lemma TerminalRewrittenExactly(cfg: Config, st: State, l: Label)
    requires Inv(cfg, st) && st.row.status.Terminal()
    ensures Apply(cfg, st, l).row != st.row <==>
      || (l.CancelWrite? && st.cancellers > 0 && st.row.status != Cancelled)
      || (l.Execute? && l.k < |st.execs| && MidWrite(cfg, st.row, st.execs[l.k]))
  {
    InvHeld(cfg, st);
    match l
    case Execute(k, now) =>
      if k < |st.execs| { assert k == 0; CancelledExecWrites(cfg, st, TurnOf(cfg, st.row, st.memory, st.execs[0], now), now); }
    case Decide(k, decision, role, now) =>
      if k < |st.row.approvals| && st.row.approvals[k].status == Pending { PendingImpliesWaiting(cfg, st, k); }
    case Sweep(now) => SweepEffect(cfg, st, now);
    case CancelWrite => CancelledTwice(cfg, st);
    case _ =>
  }

  lemma SettledStays(cfg: Config, st: State, l: Label)
    requires Inv(cfg, st) && st.row.status.Terminal() && Settled(cfg, st)
    ensures Apply(cfg, st, l).row == st.row && Settled(cfg, Apply(cfg, st, l))
  {
    TerminalRewrittenExactly(cfg, st, l);
    InvHeld(cfg, st);
    match l
    case Execute(k, now) =>
      if k < |st.execs| { assert k == 0; CancelledExecWrites(cfg, st, TurnOf(cfg, st.row, st.memory, st.execs[0], now), now); }
    case Decide(k, decision, role, now) =>
      if k < |st.row.approvals| && st.row.approvals[k].status == Pending { PendingImpliesWaiting(cfg, st, k); }
    case Sweep(now) => SweepEffect(cfg, st, now);
    case _ =>
  }

  lemma {:induction false} SettledIsFinal(cfg: Config, st: State, ls: seq<Label>)
    requires Inv(cfg, st) && st.row.status.Terminal() && Settled(cfg, st)
    ensures RunAll(cfg, st, ls).row == st.row
    decreases |ls|
  {
    if ls != [] {
      ApplyKeepsInv(cfg, st, ls[0]);
      SettledStays(cfg, st, ls[0]);
      SettledIsFinal(cfg, Apply(cfg, st, ls[0]), ls[1..]);
    }
  }

  /** Terminal history is never rewritten exactly if, when the run became terminal,
      no cancel request and no executor was between its check and its write. */
  lemma {:induction false} TerminalIsFinalExactly(cfg: Config, memory: Memory, queued: bool, before: seq<Label>)
    requires RunAll(cfg, Initial(cfg, memory, queued), before).row.status.Terminal()
    ensures var st := RunAll(cfg, Initial(cfg, memory, queued), before);
      (forall later :: RunAll(cfg, st, later).row == st.row) <==> Settled(cfg, st)
  {
    InitialInv(cfg, memory, queued);
    ReachableInv(cfg, Initial(cfg, memory, queued), before);
    FinalExactlyWhenSettled(cfg, RunAll(cfg, Initial(cfg, memory, queued), before));
  }

  lemma {:induction false} FinalExactlyWhenSettled(cfg: Config, st: State)
    requires Inv(cfg, st) && st.row.status.Terminal()
    ensures (forall later :: RunAll(cfg, st, later).row == st.row) <==> Settled(cfg, st)
  {
    if Settled(cfg, st) {
      forall later
        ensures RunAll(cfg, st, later).row == st.row
      { SettledIsFinal(cfg, st, later); }
    } else {
      var l := if Interruptible(cfg, st) then CancelWrite else Execute(0, 0);
      TerminalRewrittenExactly(cfg, st, l);
      OneAction(cfg, st, l);
      assert RunAll(cfg, st, [l]).row != st.row;
    }
  }

  lemma {:induction false} OneAction(cfg: Config, st: State, l: Label)
    ensures RunAll(cfg, st, [l]) == Apply(cfg, st, l)
  {
    assert [l][1..] == [];
  }

  /** A cancel stands for good exactly if it commits while no executor is between a
      check and its write. */
  lemma {:induction false} CancelStandsExactlyWhenInterruptible(cfg: Config, st: State)
    requires Inv(cfg, st) && !st.row.status.Terminal() && st.cancellers > 0
    ensures var cancelled := Apply(cfg, st, CancelWrite);
      (forall later :: RunAll(cfg, cancelled, later).row == cancelled.row) <==> Interruptible(cfg, st)
  {
    ApplyKeepsInv(cfg, st, CancelWrite);
    FinalExactlyWhenSettled(cfg, Apply(cfg, st, CancelWrite));
  }

  /** Every run that would complete undisturbed can be rewritten after it has: the
      cancel's check, the run, the cancel's write. */
  lemma CompletedRunRewritten(cfg: Config, memory: Memory) returns (ls: seq<Label>)
    requires Uninterrupted(cfg, memory, map[]).status == Completed
    ensures RunAll(cfg, Initial(cfg, memory, false), ls).row.status == Completed
    ensures Apply(cfg, RunAll(cfg, Initial(cfg, memory, false), ls), CancelWrite).row.status == Cancelled
  {
    var start := Initial(cfg, memory, false);
    var checked := Apply(cfg, start, CancelCheck);
    InitialInv(cfg, memory, false);
    ApplyKeepsInv(cfg, start, CancelCheck);
    var rest := ExecutorFinishes(cfg, checked, 0);
    ls := [CancelCheck] + rest;
    assert ls[1..] == rest;
    RestsAsFold(cfg, memory, ls);
  }

  /** And every such run completes over a cancel that commits between its first status
      check and the write behind it, keeping the mark in the error column. */
  lemma CancelledRunCompletes(cfg: Config, memory: Memory) returns (rest: seq<Label>)
    requires Uninterrupted(cfg, memory, map[]).status == Completed
    ensures var cancelled := RunAll(cfg, Initial(cfg, memory, false), [CancelCheck, Execute(0, 0), CancelWrite]);
      var end := RunAll(cfg, cancelled, rest);
      && cancelled.row.status == Cancelled
      && end.row.status == Completed && end.row.error == Some(CancelledByOperator)
  {
    var start := Initial(cfg, memory, false);
    var first := [CancelCheck, Execute(0, 0), CancelWrite];
    var cancelled := RunAll(cfg, start, first);
    LaunchingIsCancelled(cfg, memory, cancelled);
    InitialInv(cfg, memory, false);
    ReachableInv(cfg, start, first);
    var running := Apply(cfg, cancelled, Execute(0, 0));
    ApplyKeepsInv(cfg, cancelled, Execute(0, 0));
    var more := ExecutorFinishes(cfg, running, 0);
    rest := [Execute(0, 0)] + more;
    assert rest[1..] == more;
    RunAllConcat(cfg, start, first, rest);
    RestsAsFold(cfg, memory, first + rest);
  }

  lemma {:induction false} LaunchingIsCancelled(cfg: Config, memory: Memory, cancelled: State)
    requires cancelled == RunAll(cfg, Initial(cfg, memory, false), [CancelCheck, Execute(0, 0), CancelWrite])
    ensures cancelled.row.status == Cancelled && !cancelled.torn && cancelled.log == map[]
    ensures var running := Apply(cfg, cancelled, Execute(0, 0));
      running.row.status == Running && running.execs != [] && !running.torn && running.lost && running.log == map[]
  {
    var start := Initial(cfg, memory, false);
    var checked := start.(cancellers := 1);
    var launching := checked.(execs := [Launching(0, cfg.input)]);
    assert Apply(cfg, start, CancelCheck) == checked;
    assert Apply(cfg, checked, Execute(0, 0)) == launching;
    OneAction(cfg, launching, CancelWrite);
    assert [CancelCheck, Execute(0, 0), CancelWrite][1..] == [Execute(0, 0), CancelWrite];
    assert [Execute(0, 0), CancelWrite][1..] == [CancelWrite];
  }

  /** A history without verdicts that ends at rest, of a run that completes undisturbed. */
  lemma {:induction false} RestsAsFold(cfg: Config, memory: Memory, ls: seq<Label>)
    requires Uninterrupted(cfg, memory, map[]).status == Completed
    requires var end := RunAll(cfg, Initial(cfg, memory, false), ls); AtRest(end) && end.log == map[]
    ensures var end := RunAll(cfg, Initial(cfg, memory, false), ls);
      end.row.status == Completed && end.row.error == if end.lost then Some(CancelledByOperator) else None
  {
    InterruptionsDoNotMatter(cfg, memory, false, ls);
  }

  /******* Late decisions *******/

  /** Deciding an expired approval settles the approval but not the run: nothing
      except a cancel ever moves that run again. */
  lemma {:induction false} LateDecisionStrandsRun(cfg: Config, st: State, ls: seq<Label>)
    requires Inv(cfg, st) && st.row.status == WaitingApproval
    requires st.row.currentStep in st.log
    ensures var end := RunAll(cfg, st, ls);
      end.row == st.row || (CancelWrite in ls && end.row == CancelledRow(st.row))
    decreases |ls|
  {
    if ls != [] {
      ApplyKeepsInv(cfg, st, ls[0]);
      StrandedStep(cfg, st, ls[0]);
      var after := Apply(cfg, st, ls[0]);
      if after.row == st.row {
        ApplyOnlyGrows(cfg, st, ls[0]);
        LateDecisionStrandsRun(cfg, after, ls[1..]);
      } else {
        SettledIsFinal(cfg, after, ls[1..]);
      }
    }
  }

  lemma StrandedStep(cfg: Config, st: State, l: Label)
    requires Inv(cfg, st) && st.row.status == WaitingApproval && st.row.currentStep in st.log
    ensures Apply(cfg, st, l).row == st.row
            || (l == CancelWrite && Apply(cfg, st, l).row == CancelledRow(st.row) && Apply(cfg, st, l).execs == [])
  {
    match l
    case Decide(k, decision, role, now) =>
      if k < |st.row.approvals| && st.row.approvals[k].status == Pending { PendingImpliesWaiting(cfg, st, k); }
    case Sweep(now) => SweepEffect(cfg, st, now);
    case _ =>
  }

  /** Some history without a cancel takes the run out of `waiting_approval`. */
  ghost predicate CanLeave(cfg: Config, st: State) {
    exists ls :: CancelWrite !in ls && RunAll(cfg, st, ls).row.status != WaitingApproval
  }

  /** A waiting run can go on exactly as long as nobody decided its approval too late. */
  lemma WaitingRunLeavesExactlyWhenUndecided(cfg: Config, st: State)
    requires Inv(cfg, st) && st.row.status == WaitingApproval
    ensures CanLeave(cfg, st) <==> st.row.currentStep !in st.log
  {
    if st.row.currentStep in st.log {
      forall ls | CancelWrite !in ls
        ensures RunAll(cfg, st, ls).row.status == WaitingApproval
      { LateDecisionStrandsRun(cfg, st, ls); }
    } else {
      var n := |st.row.approvals| - 1;
      var a := st.row.approvals[n];
      var role := if a.approverRoles == [] then "admin" else a.approverRoles[0];
      var now := if a.expiresAt.Some? then a.expiresAt.value - 1 else 0;
      assert DEFAULT_ROLES[0] == "admin";
      assert DecisionOutcome(st.row, n, Reject(""), role, now) == RunRejected;
      OneAction(cfg, st, Decide(n, Reject(""), role, now));
      assert RunAll(cfg, st, [Decide(n, Reject(""), role, now)]).row.status == Rejected;
    }
  }

  /** Deciding a pending approval, whoever tries and whatever is decided, leaves the run
      able to go on exactly if the approval has not expired by then. */
  lemma DecisionCountsExactlyInTime(cfg: Config, st: State, k: nat, decision: Decision, role: string, now: int)
    requires Inv(cfg, st) && k < |st.row.approvals| && st.row.approvals[k].status == Pending
    ensures CanLeave(cfg, Apply(cfg, st, Decide(k, decision, role, now))) <==> !st.row.approvals[k].Due(now)
  {
    var after := Apply(cfg, st, Decide(k, decision, role, now));
    PendingImpliesWaiting(cfg, st, k);
    ApplyKeepsInv(cfg, st, Decide(k, decision, role, now));
    if after.row.status == WaitingApproval {
      WaitingRunLeavesExactlyWhenUndecided(cfg, after);
    } else {
      assert RunAll(cfg, after, []).row.status != WaitingApproval;
    }
  }

  /******* Torn crashes and recovery *******/

  /** After a crash between a span and its run update the run is stuck: every
      executor hits the UNIQUE span, so only a cancel ends it. */
  lemma {:induction false} TornRunsNeverRest(cfg: Config, st: State, ls: seq<Label>)
    requires Inv(cfg, st) && st.torn
    ensures var end := RunAll(cfg, st, ls);
      && !AtRest(end)
      && end.row.spans == st.row.spans
    decreases |ls|
  {
    if ls != [] {
      ApplyKeepsInv(cfg, st, ls[0]);
      ApplyOnlyGrows(cfg, st, ls[0]);
      DeadRunsKeepSpans(cfg, st, ls[0]);
      TornRunsNeverRest(cfg, Apply(cfg, st, ls[0]), ls[1..]);
    }
  }

  ghost function Rank(e: Exec): nat {
    match e
    case Starting => 7
    case Launching(_, _) => 6
    case AtStep(_, _) => 5
    case Entered(_, _) => 4
    case ToolDone(_, _, _) => 3
    case Recording(_, _, _) => 2
    case _ => 1
  }

  /** How many actions an executor still has before it. */
  ghost function Remaining(cfg: Config, row: Row, e: Exec): nat {
    8 * (if row.currentStep < |cfg.steps| then |cfg.steps| - row.currentStep else 0) + Rank(e)
  }

  /** Left alone, an executor brings its run to rest. */
  lemma {:induction false} ExecutorFinishes(cfg: Config, st: State, now: int) returns (ls: seq<Label>)
    requires Inv(cfg, st) && !st.torn && st.row.status == Running && st.execs != []
    ensures AtRest(RunAll(cfg, st, ls))
    ensures RunAll(cfg, st, ls).log == st.log && RunAll(cfg, st, ls).cancellers == st.cancellers && RunAll(cfg, st, ls).lost == st.lost
    decreases Remaining(cfg, st.row, st.execs[0])
  {
    var l := Execute(0, now);
    ExecKeepsInv(cfg, st, 0, now);
    var after := Apply(cfg, st, l);
    InvHeld(cfg, st);
    ExecProgress(cfg, st, TurnOf(cfg, st.row, st.memory, st.execs[0], now), now);
    if AtRest(after) {
      ls := [l];
      OneAction(cfg, st, l);
    } else {
      var rest := ExecutorFinishes(cfg, after, now);
      ls := [l] + rest;
      assert ls[1..] == rest;
    }
  }

  lemma ExecProgress(cfg: Config, st: State, t: Turn, now: int)
    requires Held(cfg, st) && !st.torn && st.row.status == Running
    requires t == TurnOf(cfg, st.row, st.memory, st.execs[0], now)
    ensures t.next == None ==> t.row.status == Completed || t.row.status == Failed || t.row.status == WaitingApproval
    ensures t.next.Some? ==>
      t.row.status == Running && Remaining(cfg, t.row, t.next.value) < Remaining(cfg, st.row, st.execs[0])
  {
    match st.execs[0]
    case Entered(index, value) =>
      SlotFree(st.row);
      EnterProgress(cfg, st.row, st.memory, index, value, t);
    case Recording(_, _, _) => SlotFree(st.row);
    case _ =>
  }

  lemma EnterProgress(cfg: Config, row: Row, memory: Memory, index: nat, value: Value, t: Turn)
    requires index < |cfg.steps| && SpanFree(row, index) && t == EnterTurn(cfg, row, memory, index, value)
    ensures t.next == None ==> t.row.status == Failed
    ensures t.next.Some? ==> t.row.status == row.status && t.row.currentStep == row.currentStep && Rank(t.next.value) < 4
  {
  }

  lemma SlotFree(row: Row)
    requires TraceOk(row) && Linked(row) && Level(row)
    ensures SpanFree(row, row.currentStep)
  {
  }

  lemma {:induction false} RunAllConcat(cfg: Config, st: State, before: seq<Label>, later: seq<Label>)
    ensures RunAll(cfg, st, before + later) == RunAll(cfg, RunAll(cfg, st, before), later)
    decreases |before|
  {
    if before == [] {
      assert before + later == later;
    } else {
      assert (before + later)[1..] == before[1..] + later;
      RunAllConcat(cfg, Apply(cfg, st, before[0]), before[1..], later);
    }
  }

  /** Recovery works exactly when the crash did not tear: an interrupted run can be
      brought to rest if and only if no crash separated a span from its update. */
  lemma {:induction false} RecoverableExactlyWhenNotTorn(cfg: Config, st: State)
    requires Inv(cfg, st) && (st.row.status == Queued || st.row.status == Running)
    ensures (exists ls :: AtRest(RunAll(cfg, st, ls))) <==> !st.torn
  {
    if st.torn {
      forall ls
        ensures !AtRest(RunAll(cfg, st, ls))
      { TornRunsNeverRest(cfg, st, ls); }
    } else {
      var start := if st.execs == [] then [Recover, Claim] else [];
      var mid := RunAll(cfg, st, start);
      if st.execs == [] {
        assert start[1..] == [Claim];
        OneAction(cfg, RecoverStep(st), Claim);
        assert mid == ClaimStep(RecoverStep(st));
      }
      ReachableInv(cfg, st, start);
      var rest := ExecutorFinishes(cfg, mid, 0);
      RunAllConcat(cfg, st, start, rest);
    }
  }

  /** The same condition over the stored rows: an interrupted run can be brought to rest
      if and only if the span of the step its row names is still missing. */
  lemma {:induction false} RecoverableExactlyWhenSlotFree(cfg: Config, st: State)
    requires Inv(cfg, st) && (st.row.status == Queued || st.row.status == Running) && st.execs == []
    ensures (exists ls :: AtRest(RunAll(cfg, st, ls))) <==> SpanFree(st.row, st.row.currentStep)
  {
    RecoverableExactlyWhenNotTorn(cfg, st);
    if st.torn {
      TornSlotTaken(st.row);
    } else {
      SlotFree(st.row);
    }
  }

  /** `n` actions of the run's executor. */
  function Executions(n: nat): (ls: seq<Label>)
    ensures |ls| == n
  {
    if n == 0 then [] else [Execute(0, 0)] + Executions(n - 1)
  }

  /** One of them, if the executor goes on after it. */
  lemma ExecuteFirst(cfg: Config, st: State, n: nat, e: Exec, t: Turn, after: State)
    requires st.execs == [e] && st.row.status != Cancelled && t == TurnOf(cfg, st.row, st.memory, e, 0) && t.next.Some?
    requires after == st.(row := t.row, memory := t.memory, execs := [t.next.value])
    ensures RunAll(cfg, st, Executions(n + 1)) == RunAll(cfg, after, Executions(n))
  {
    assert Executions(n + 1)[0] == Execute(0, 0) && Executions(n + 1)[1..] == Executions(n);
    assert ExecStep(cfg, st, 0, 0) == after by {
      assert st.execs[0 := t.next.value] == [t.next.value];
    }
  }

  /** From the start into the first step: two checks and the launch. */
  lemma ReachesFirstStep(cfg: Config, st: State, n: nat)
    requires st.execs == [Starting] && st.row.status == Running && st.row.currentStep == 0 && cfg.steps != []
    ensures RunAll(cfg, st, Executions(n + 3)) == RunAll(cfg, st.(execs := [Entered(0, st.row.input)]), Executions(n))
  {
    var row, memory, value := st.row, st.memory, st.row.input;
    var launching, atStep := st.(execs := [Launching(0, value)]), st.(execs := [AtStep(0, value)]);
    ExecuteFirst(cfg, st, n + 2, Starting, Turn(row, memory, Some(Launching(0, value))), launching);
    ExecuteFirst(cfg, launching, n + 1, Launching(0, value), Turn(row, memory, Some(AtStep(0, value))), atStep);
    ExecuteFirst(cfg, atStep, n, AtStep(0, value), Turn(row, memory, Some(Entered(0, value))),
                 st.(execs := [Entered(0, value)]));
  }

  /** From there to its span: the tool, a check and the insert. */
  lemma {:induction false} ReachesFirstSpan(cfg: Config, st: State, value: Value, outcome: Outcome, after: Memory)
    requires st.execs == [Entered(0, value)] && st.row.status == Running && st.row.spans == []
    requires 0 < st.row.maxSteps && cfg.steps != [] && RoleAllowed(cfg.steps[0], st.row.role) && !cfg.steps[0].tool.Approval?
    requires outcome == StepOutcome(cfg, st.memory, 0, value) && after == StepMemory(cfg, st.memory, 0, value)
    ensures RunAll(cfg, st, Executions(3))
            == st.(row := WithSpan(st.row, OutcomeSpan(0, cfg.steps[0], value, outcome)), memory := after, execs := [SpanDone(0, outcome)])
  {
    var row := st.row;
    var done, recording := ToolDone(0, value, outcome), Recording(0, value, outcome);
    var called, checked := st.(memory := after, execs := [done]), st.(memory := after, execs := [recording]);
    var spanned := WithSpan(row, OutcomeSpan(0, cfg.steps[0], value, outcome));
    ExecuteFirst(cfg, st, 2, Entered(0, value), Turn(row, after, Some(done)), called);
    ExecuteFirst(cfg, called, 1, done, Turn(row, after, Some(recording)), checked);
    ExecuteFirst(cfg, checked, 0, recording, Turn(spanned, after, Some(SpanDone(0, outcome))),
                 st.(row := spanned, memory := after, execs := [SpanDone(0, outcome)]));
  }

  /** A crash that tears: any run whose first step has a tool to call, six actions into
      its execution, has the step's span and not yet the update of its row. */
  lemma {:induction false} CrashTears(cfg: Config, memory: Memory, ls: seq<Label>, st: State)
    requires Gated(cfg, 0) && !cfg.steps[0].tool.Approval?
    requires ls == Executions(6) && st == RunAll(cfg, Initial(cfg, memory, false), ls)
    ensures var crashed := Apply(cfg, st, Crash(0, 0));
      && crashed.torn && crashed.execs == [] && crashed.row.status == Running
      && !SpanFree(crashed.row, crashed.row.currentStep)
  {
    var outcome := StepOutcome(cfg, memory, 0, cfg.input);
    var start := Initial(cfg, memory, false);
    ReachesFirstStep(cfg, start, 3);
    ReachesFirstSpan(cfg, start.(execs := [Entered(0, cfg.input)]), cfg.input, outcome, StepMemory(cfg, memory, 0, cfg.input));
    SpanDoneTears(st, outcome);
  }

  lemma SpanDoneTears(st: State, outcome: Outcome)
    requires st.execs == [SpanDone(0, outcome)] && st.row.currentStep == 0 && st.row.spans != [] && st.row.spans[0].index == 0
    ensures var crashed := CrashStep(st, 0, 0);
      crashed.torn && crashed.execs == [] && crashed.row == st.row && !SpanFree(crashed.row, crashed.row.currentStep)
  {
    assert st.execs[0].SpanDone?;
  }

  /** Why recovery must wait until no executor is alive: run beside one, it breaks the
      invariant and hands the same run to a second one. */
  lemma RecoverySafeExactlyWithoutExecutors(cfg: Config, st: State)
    requires Inv(cfg, st)
    ensures Inv(cfg, RecoverStep(st)) <==> !(st.row.status == Running && st.execs != [])
    ensures |ClaimStep(RecoverStep(st)).execs| <= 1 <==> !(st.row.status == Running && st.execs != [])
  {
    if st.execs == [] {
      RecoverKeepsInv(cfg, st);
    }
  }
}
