/**
  One run under concurrency: executors, the queue, approvers, the expiry sweep,
  cancellation, crashes and recovery, one database transaction at a time.

  Each label is an atomic action; disabled labels change nothing, so a history is
  any sequence of labels.  Every status check is an action of its own, and so is
  the write it guards: a cancel may commit between them, and `cancel_run` may
  write after its own check is out of date.  One assumption is part of `Apply`:
  recovery runs when no executor is alive (`Recover` waits for `execs == []`), as at
  the start of the only process.  Builtin tools and the results of handoffs are an oracle of
  (tool, credential, value, attempt); memory tools act on the project's memory,
  which no other run writes meanwhile.
  */
module RunProtocol {
  import opened Prelude
  import opened Json
  import opened Runs

  datatype Config = Config(steps: seq<Step>, oracle: Oracle, secrets: Secrets, project: int, input: Value, maxSteps: int,
                           role: string)

  /** Where an executor is inside `_execute`. */
  datatype Exec =
    | Starting
    | Launching(index: nat, value: Value)                   // may run: about to set `running`
    | AtStep(index: nat, value: Value)
    | Entered(index: nat, value: Value)                     // was not cancelled at the top of the step
    | ToolDone(index: nat, value: Value, outcome: Outcome)
    | Recording(index: nat, value: Value, outcome: Outcome) // was not cancelled after the tool
    | SpanDone(index: nat, outcome: Outcome)
    | Pausing(index: nat, value: Value)

  /** How an approval step was settled. */
  datatype Verdict = Given(decision: Decision) | TimedOut | DecidedTooLate

  /** `cancellers` counts the cancel requests between their check and their write.
      Three fields only record history: `log` the verdicts, `torn` that a crash hit
      between a span insert and the update of the run row that belongs to it, and
      `lost` that an executor overwrote a cancelled status. */
  datatype State = State(row: Row, memory: Memory, execs: seq<Exec>, cancellers: nat, queue: nat, log: map<nat, Verdict>,
                         torn: bool, lost: bool)

  datatype Label =
    | Submit
    | Claim
    | Execute(k: nat, now: int)
    | Decide(approval: nat, decision: Decision, approver: string, now: int)
    | Sweep(now: int)
    | CancelCheck
    | CancelWrite
    | Crash(kept: nat, requests: nat) // how much of the queue and how many cancel requests survive
    | Recover

  /******* Actions *******/

  function StepOutcome(cfg: Config, memory: Memory, index: nat, value: Value): Outcome
    requires index < |cfg.steps|
  {
    FirstSuccess((attempt: nat) =>
                   LocalOutcome(cfg.oracle, cfg.project, cfg.secrets, memory, cfg.steps[index].tool, value, attempt),
                 0, Retries(cfg.steps[index]))
  }

  function StepMemory(cfg: Config, memory: Memory, index: nat, value: Value): Memory
    requires index < |cfg.steps|
  {
    LocalMemory(cfg.project, memory, cfg.steps[index].tool, value)
  }

  function Without(execs: seq<Exec>, k: nat): seq<Exec>
    requires k < |execs|
  {
    execs[..k] + execs[k + 1..]
  }

  /** What an executor's action leaves: the row, the memory, and where it stands next,
      if it goes on. */
  datatype Turn = Turn(row: Row, memory: Memory, next: Option<Exec>)

  /** Past the status check: budget and role, then the tool or the pause. */
  function EnterTurn(cfg: Config, row: Row, memory: Memory, index: nat, value: Value): Turn
    requires index < |cfg.steps|
  {
    var step := cfg.steps[index];
    if index >= row.maxSteps then Turn(StopRow(row, BudgetExceeded), memory, None)
    else if !RoleAllowed(step, row.role) then Turn(StopRow(row, PermissionDenied), memory, None)
    else if !step.tool.Approval? then
      Turn(row, StepMemory(cfg, memory, index, value), Some(ToolDone(index, value, StepOutcome(cfg, memory, index, value))))
    else if SpanFree(row, index) then
      Turn(WithSpan(row, WaitingSpan(index, step, value)), memory, Some(Pausing(index, value)))
    else Turn(row, memory, None) // the UNIQUE violation escapes `_execute`
  }

  /** A check: a cancelled run is left. */
  function Check(row: Row, memory: Memory, next: Exec): Turn {
    Turn(row, memory, if row.status == Cancelled then None else Some(next))
  }

  function TurnOf(cfg: Config, row: Row, memory: Memory, e: Exec, now: int): Turn {
    match e
    case Starting => Check(row, memory, Launching(row.currentStep, CurrentValue(row)))
    case Launching(index, value) => Turn(row.(status := Running), memory, Some(AtStep(index, value)))
    case AtStep(index, value) =>
      if index >= |cfg.steps| then Turn(FinishRow(row, value), memory, None)
      else Check(row, memory, Entered(index, value))
    case Entered(index, value) =>
      if index < |cfg.steps| then EnterTurn(cfg, row, memory, index, value) else Turn(row, memory, None)
    case ToolDone(index, value, outcome) => Check(row, memory, Recording(index, value, outcome))
    case Recording(index, value, outcome) =>
      if index < |cfg.steps| && SpanFree(row, index) then
        Turn(WithSpan(row, OutcomeSpan(index, cfg.steps[index], value, outcome)), memory, Some(SpanDone(index, outcome)))
      else Turn(row, memory, None)
    case SpanDone(index, outcome) =>
      (match outcome
       case Ok(output) => Turn(AdvanceRow(row, index, output), memory, Some(AtStep(index + 1, output)))
       case Err(error) => Turn(FailRow(row, index, error), memory, None))
    case Pausing(index, value) =>
      if index < |cfg.steps| && cfg.steps[index].tool.Approval? then
        Turn(PauseRow(row, index, cfg.steps[index].tool, value, now), memory, None)
      else Turn(row, memory, None)
  }

  /** One executor has moved; an action that takes the run out of `cancelled` loses
      the cancel. */
  function After(st: State, k: nat, t: Turn): State
    requires k < |st.execs|
  {
    State(t.row, t.memory, if t.next.Some? then st.execs[k := t.next.value] else Without(st.execs, k),
          st.cancellers, st.queue, st.log, st.torn, st.lost || (st.row.status == Cancelled && t.row.status != Cancelled))
  }

  function ExecStep(cfg: Config, st: State, k: nat, now: int): State
    requires k < |st.execs|
  {
    After(st, k, TurnOf(cfg, st.row, st.memory, st.execs[k], now))
  }

  /** Between a status check and a write that changes the run: the executor's next
      action writes to the row whatever its status has become. */
  predicate MidWrite(cfg: Config, row: Row, e: Exec) {
    match e
    case Starting => false
    case Launching(_, _) => true
    case AtStep(index, _) => index >= |cfg.steps|
    case Entered(index, _) =>
      index < |cfg.steps|
      && (index >= row.maxSteps || !RoleAllowed(cfg.steps[index], row.role)
          || (cfg.steps[index].tool.Approval? && SpanFree(row, index)))
    case ToolDone(_, _, _) => false
    case Recording(index, _, _) => index < |cfg.steps| && SpanFree(row, index)
    case SpanDone(_, _) => true
    case Pausing(_, _) => true
  }

  predicate Interruptible(cfg: Config, st: State) {
    forall k | 0 <= k < |st.execs| :: !MidWrite(cfg, st.row, st.execs[k])
  }

  function DecideStep(st: State, k: nat, decision: Decision, role: string, now: int): State {
    var row := DecideRow(st.row, k, decision, role, now);
    match DecisionOutcome(st.row, k, decision, role, now)
    case TooLate => st.(row := row, log := st.log[st.row.approvals[k].stepIndex := DecidedTooLate])
    case RunRejected => st.(row := row, log := st.log[st.row.approvals[k].stepIndex := Given(decision)])
    case Resumed =>
      st.(row := row, log := st.log[st.row.approvals[k].stepIndex := Given(decision)], execs := st.execs + [Starting])
    case _ => st
  }

  /** The steps whose approvals a sweep at `now` expires. */
  function SweptSteps(row: Row, now: int): set<nat> {
    set k | 0 <= k < |row.approvals| && Sweepable(row.approvals[k], now) :: row.approvals[k].stepIndex
  }

  function SweepStep(st: State, now: int): State {
    st.(row := ExpireRow(st.row, now), log := st.log + (map i | i in SweptSteps(st.row, now) :: TimedOut))
  }

  function ClaimStep(st: State): State {
    if st.queue == 0 then st
    else match ClaimRow(st.row)
      case None => st.(queue := st.queue - 1)
      case Some(row) => st.(queue := st.queue - 1, row := row, execs := st.execs + [Starting])
  }

  function RecoverStep(st: State): State {
    if st.row.status == Queued || st.row.status == Running then
      st.(row := RequeueRow(st.row), queue := st.queue + 1)
    else st
  }

  function CrashStep(st: State, kept: nat, requests: nat): State {
    st.(execs := [], queue := if kept < st.queue then kept else st.queue,
        cancellers := if requests < st.cancellers then requests else st.cancellers,
        torn := st.torn || exists k | 0 <= k < |st.execs| :: st.execs[k].SpanDone? || st.execs[k].Pausing?)
  }

  function CancelWriteStep(st: State): State {
    if st.cancellers == 0 then st else st.(row := CancelledRow(st.row), cancellers := st.cancellers - 1)
  }

  function Apply(cfg: Config, st: State, l: Label): State {
    match l
    case Submit => st.(queue := st.queue + 1)
    case Claim => ClaimStep(st)
    case Execute(k, now) => if k < |st.execs| then ExecStep(cfg, st, k, now) else st
    case Decide(k, decision, role, now) => DecideStep(st, k, decision, role, now)
    case Sweep(now) => SweepStep(st, now)
    case CancelCheck => if st.row.status.Terminal() then st else st.(cancellers := st.cancellers + 1)
    case CancelWrite => CancelWriteStep(st)
    case Crash(kept, requests) => CrashStep(st, kept, requests)
    case Recover => if st.execs == [] then RecoverStep(st) else st
  }

  function RunAll(cfg: Config, st: State, ls: seq<Label>): State
    decreases |ls|
  {
    if ls == [] then st else RunAll(cfg, Apply(cfg, st, ls[0]), ls[1..])
  }

  function Initial(cfg: Config, memory: Memory, queued: bool): State {
    var row := NewRow(0, None, if queued then Queued else Running, cfg.input, cfg.maxSteps, cfg.role);
    State(row, memory, if queued then [] else [Starting], 0, if queued then 1 else 0, map[], false, false)
  }

  /******* The specification: one fold over the steps and the verdicts *******/

  datatype Final = Final(status: Status, output: Value, error: Option<Error>, spans: seq<Span>, memory: Memory)

  /** A failure or a rejection comes with its reason. */
  function FinalOf(row: Row, memory: Memory): Final {
    Final(row.status, row.output, if row.status.Failed? || row.status.Rejected? then row.error else None, row.spans, memory)
  }

  function Fold(cfg: Config, log: map<nat, Verdict>, memory: Memory, index: nat, value: Value, output: Value,
                spans: seq<Span>): Final
    decreases |cfg.steps| - index, 1
  {
    if index >= |cfg.steps| then Final(Completed, value, None, spans, memory)
    else if index >= cfg.maxSteps then Final(Failed, output, Some(BudgetExceeded), spans, memory)
    else if !RoleAllowed(cfg.steps[index], cfg.role) then Final(Failed, output, Some(PermissionDenied), spans, memory)
    else if cfg.steps[index].tool.Approval? then FoldApproval(cfg, log, memory, index, value, spans)
    else
      var after := StepMemory(cfg, memory, index, value);
      match StepOutcome(cfg, memory, index, value)
      case Ok(result) =>
        Fold(cfg, log, after, index + 1, result, result, spans + [CompletedSpan(index, cfg.steps[index], value, result)])
      case Err(error) =>
        Final(Failed, output, Some(error), spans + [FailedSpan(index, cfg.steps[index], value, error)], after)
  }

  function FoldApproval(cfg: Config, log: map<nat, Verdict>, memory: Memory, index: nat, value: Value, spans: seq<Span>): Final
    requires index < |cfg.steps|
    decreases |cfg.steps| - index, 0
  {
    var waiting := spans + [WaitingSpan(index, cfg.steps[index], value)];
    if index !in log then Final(WaitingApproval, value, None, waiting, memory)
    else match log[index]
      case DecidedTooLate => Final(WaitingApproval, value, None, waiting, memory)
      case TimedOut => Final(Rejected, value, Some(ApprovalExpired), waiting, memory)
      case Given(Reject(note)) =>
        Final(Rejected, value, Some(RejectedWith(if note == "" then "approval rejected" else note)), waiting, memory)
      case Given(Approve(edited)) =>
        var result := if edited.Some? then edited.value else value;
        Fold(cfg, log, memory, index + 1, result, result, spans + [CompletedSpan(index, cfg.steps[index], value, result)])
  }

  /** The whole run, never interrupted. */
  function Uninterrupted(cfg: Config, memory: Memory, log: map<nat, Verdict>): Final {
    Fold(cfg, log, memory, 0, cfg.input, Null, [])
  }

  /******* The invariant *******/

  ghost predicate Level(row: Row) {
    && |row.spans| == row.currentStep
    && (row.spans != [] ==> row.spans[|row.spans| - 1].status == SpanCompleted)
  }

  ghost predicate Ahead(row: Row) {
    |row.spans| == row.currentStep + 1
  }

  ghost predicate Gated(cfg: Config, index: nat) {
    index < |cfg.steps| && index < cfg.maxSteps && RoleAllowed(cfg.steps[index], cfg.role)
  }

  /** At the step the row names, with the value the row holds. */
  ghost predicate InStep(st: State, index: nat, value: Value) {
    index == st.row.currentStep && value == CurrentValue(st.row) && (st.torn || Level(st.row))
  }

  /** The tool of this step has given `outcome`, and would give it again. */
  ghost predicate Called(cfg: Config, st: State, index: nat, value: Value, outcome: Outcome) {
    && Gated(cfg, index) && !cfg.steps[index].tool.Approval?
    && outcome == StepOutcome(cfg, st.memory, index, value)
    && st.memory == StepMemory(cfg, st.memory, index, value)
  }

  ghost predicate ExecOk(cfg: Config, st: State, e: Exec) {
    var row := st.row;
    match e
    case Starting => st.torn || Level(row)
    case Launching(i, v) => InStep(st, i, v)
    case AtStep(i, v) => InStep(st, i, v)
    case Entered(i, v) => InStep(st, i, v) && i < |cfg.steps|
    case ToolDone(i, v, outcome) => InStep(st, i, v) && Called(cfg, st, i, v, outcome)
    case Recording(i, v, outcome) => InStep(st, i, v) && Called(cfg, st, i, v, outcome)
    case SpanDone(i, outcome) =>
      && !st.torn && i == row.currentStep && Ahead(row)
      && Called(cfg, st, i, CurrentValue(row), outcome)
      && row.spans[i] == OutcomeSpan(i, cfg.steps[i], CurrentValue(row), outcome)
    case Pausing(i, v) =>
      && !st.torn && i == row.currentStep && v == CurrentValue(row) && Ahead(row)
      && Gated(cfg, i) && cfg.steps[i].tool.Approval?
      && row.spans[i] == WaitingSpan(i, cfg.steps[i], v)
  }

  /** A run that waits: its last span is open, and the approval of that very step
      is pending, unless someone decided it too late. */
  ghost predicate WaitingOk(cfg: Config, st: State) {
    var row := st.row;
    var c := row.currentStep;
    && Ahead(row) && Gated(cfg, c) && cfg.steps[c].tool.Approval?
    && row.spans[c] == WaitingSpan(c, cfg.steps[c], row.output)
    && row.approvals != []
    && var a := row.approvals[|row.approvals| - 1];
       && a.stepIndex == c && a.approverRoles == cfg.steps[c].tool.approverRoles
       && (a.status == Pending ==> c !in st.log)
       && (a.status != Pending ==> a.status == Expired && c in st.log && st.log[c] == DecidedTooLate)
  }

  ghost predicate Constant(cfg: Config, row: Row) {
    && row.input == cfg.input && row.maxSteps == cfg.maxSteps && row.role == cfg.role
  }

  /** An executor holds the run, or one may still take it up. */
  ghost predicate Live(st: State) {
    st.execs != [] || st.row.status.Queued? || st.row.status.Running?
  }

  ghost predicate Linked(row: Row) {
    && row.currentStep <= |row.spans|
    && (row.currentStep > 0 ==> row.output == row.spans[row.currentStep - 1].output)
  }

  /** The error column of a run that did not fail: empty, unless a cancel was lost. */
  ghost predicate ErrorOk(st: State) {
    match st.row.status
    case Failed => true
    case Rejected => true
    case Cancelled => st.row.error == Some(CancelledByOperator)
    case _ => st.row.error == if st.lost then Some(CancelledByOperator) else None
  }

  ghost predicate ApprovalsOk(st: State) {
    var row := st.row;
    && (forall j, k | 0 <= j < k < |row.approvals| :: row.approvals[j].stepIndex < row.approvals[k].stepIndex)
    && (forall k | 0 <= k < |row.approvals| :: row.approvals[k].stepIndex <= row.currentStep)
    && (Live(st) ==> forall k | 0 <= k < |row.approvals| :: row.approvals[k].stepIndex < row.currentStep)
    && (forall k | 0 <= k < |row.approvals| && row.approvals[k].status == Pending ::
          row.status == WaitingApproval && k == |row.approvals| - 1)
    && (forall i | i in st.log :: i <= row.currentStep)
    && (Live(st) ==> row.currentStep !in st.log)
  }

  ghost predicate Shape(cfg: Config, st: State) {
    && |st.execs| <= 1
    && (st.torn ==> Ahead(st.row) && Gated(cfg, st.row.currentStep)
                    && (st.row.status.Queued? || st.row.status.Running? || st.row.status.Cancelled?))
    && (if st.execs != [] then
          (st.row.status.Running? || st.row.status.Cancelled?) && ExecOk(cfg, st, st.execs[0])
        else
          && (st.row.status.Queued? || st.row.status.Running? ==> st.torn || Level(st.row))
          && (st.row.status.WaitingApproval? ==> WaitingOk(cfg, st)))
  }

  datatype Health = Sound | Broken

  /** The whole invariant as one value: lemmas that only pass it on need not open it. */
  ghost function HealthOf(cfg: Config, st: State): Health {
    if && Constant(cfg, st.row)
       && TraceOk(st.row)
       && Linked(st.row)
       && ErrorOk(st)
       && ApprovalsOk(st)
       && Shape(cfg, st)
    then Sound else Broken
  }

  ghost predicate Inv(cfg: Config, st: State) {
    HealthOf(cfg, st) == Sound
  }

  lemma InitialInv(cfg: Config, memory: Memory, queued: bool)
    ensures Inv(cfg, Initial(cfg, memory, queued))
  {
  }

  /******* Executors keep it *******/

  lemma {:induction false} ExecKeepsInv(cfg: Config, st: State, k: nat, now: int)
    requires Inv(cfg, st) && k < |st.execs|
    ensures Inv(cfg, ExecStep(cfg, st, k, now))
  {
    assert k == 0 && st.execs == [st.execs[0]];
    var t := TurnOf(cfg, st.row, st.memory, st.execs[0], now);
    match st.execs[0]
    case Starting => CheckKeepsInv(cfg, st, Launching(st.row.currentStep, CurrentValue(st.row)), t);
    case Launching(index, value) => LaunchKeepsInv(cfg, st, index, value, t);
    case AtStep(index, value) =>
      if index < |cfg.steps| { CheckKeepsInv(cfg, st, Entered(index, value), t); } else { FinishKeepsInv(cfg, st, value, t); }
    case Entered(index, value) => EnterKeepsInv(cfg, st, index, value, t);
    case ToolDone(index, value, outcome) => CheckKeepsInv(cfg, st, Recording(index, value, outcome), t);
    case Recording(index, value, outcome) => RecordKeepsInv(cfg, st, index, value, outcome, t);
    case SpanDone(index, outcome) => SpanDoneKeepsInv(cfg, st, index, outcome, t);
    case Pausing(index, value) => PauseKeepsInv(cfg, st, index, value, t.row.approvals[|st.row.approvals|], t);
  }

  /** An executor that finds its run cancelled goes; otherwise it goes on. */
  lemma CheckKeepsInv(cfg: Config, st: State, e: Exec, t: Turn)
    requires Inv(cfg, st) && |st.execs| == 1 && ExecOk(cfg, st, e) && t == Check(st.row, st.memory, e)
    ensures Inv(cfg, After(st, 0, t))
  {
    assert Without(st.execs, 0) == [];
    var after := After(st, 0, t);
    assert ExecOk(cfg, after, e);
  }

  lemma LaunchKeepsInv(cfg: Config, st: State, index: nat, value: Value, t: Turn)
    requires Inv(cfg, st) && st.execs == [Launching(index, value)]
    requires t == Turn(st.row.(status := Running), st.memory, Some(AtStep(index, value)))
    ensures Inv(cfg, After(st, 0, t))
  {
  }

  lemma FinishKeepsInv(cfg: Config, st: State, value: Value, t: Turn)
    requires Inv(cfg, st) && |st.execs| == 1 && st.execs[0].AtStep? && st.execs[0].index >= |cfg.steps|
    requires t == Turn(FinishRow(st.row, value), st.memory, None) && value == st.execs[0].value
    ensures Inv(cfg, After(st, 0, t))
  {
    assert Without(st.execs, 0) == [];
  }

  lemma EnterKeepsInv(cfg: Config, st: State, index: nat, value: Value, t: Turn)
    requires Inv(cfg, st) && st.execs == [Entered(index, value)] && index < |cfg.steps|
    requires t == EnterTurn(cfg, st.row, st.memory, index, value)
    ensures Inv(cfg, After(st, 0, t))
  {
    if !Gated(cfg, index) {
      FailKeepsInv(cfg, st, if index >= st.row.maxSteps then BudgetExceeded else PermissionDenied, t);
    } else if !cfg.steps[index].tool.Approval? {
      CallKeepsInv(cfg, st, index, value, t);
    } else if st.torn {
      TornSlotTaken(st.row);
      LeaveKeepsInv(cfg, st, t);
    } else {
      var span := WaitingSpan(index, cfg.steps[index], value);
      NextSpan(st.row, span);
      SpanKeepsInv(cfg, st, span, Pausing(index, value), t);
    }
  }

  lemma FailKeepsInv(cfg: Config, st: State, error: Error, t: Turn)
    requires Inv(cfg, st) && |st.execs| == 1 && !st.torn && Level(st.row)
    requires t == Turn(StopRow(st.row, error), st.memory, None)
    ensures Inv(cfg, After(st, 0, t))
  {
    assert Without(st.execs, 0) == [];
  }

  /** An executor that gives up on a torn run leaves everything as it is. */
  lemma LeaveKeepsInv(cfg: Config, st: State, t: Turn)
    requires Inv(cfg, st) && |st.execs| == 1 && st.torn && t == Turn(st.row, st.memory, None)
    ensures Inv(cfg, After(st, 0, t))
  {
    assert Without(st.execs, 0) == [];
  }

  lemma CallKeepsInv(cfg: Config, st: State, index: nat, value: Value, t: Turn)
    requires Inv(cfg, st) && st.execs == [Entered(index, value)] && index < |cfg.steps|
    requires Gated(cfg, index) && !cfg.steps[index].tool.Approval?
    requires t == EnterTurn(cfg, st.row, st.memory, index, value)
    ensures Inv(cfg, After(st, 0, t))
  {
    CallRepeats(cfg, st.memory, index, value);
  }

  /** Repeating a step, as after a crash, changes neither its result nor the memory. */
  lemma CallRepeats(cfg: Config, memory: Memory, index: nat, value: Value)
    requires index < |cfg.steps|
    ensures var after := StepMemory(cfg, memory, index, value);
      && StepMemory(cfg, after, index, value) == after
      && StepOutcome(cfg, after, index, value) == StepOutcome(cfg, memory, index, value)
  {
    var step := cfg.steps[index];
    var after := StepMemory(cfg, memory, index, value);
    LocalCallsRepeat(cfg.oracle, cfg.project, cfg.secrets, memory, step.tool, value, 0);
    if after != memory {
      assert step.tool.MemoryWrite?;
    }
  }

  /** The span an executor adds is the next one, and continues the chain. */
  lemma NextSpan(row: Row, span: Span)
    requires TraceOk(row) && Linked(row) && Level(row)
    requires span.index == row.currentStep && span.input == CurrentValue(row)
    ensures SpanFree(row, row.currentStep)
    ensures TraceOk(WithSpan(row, span)) && Linked(WithSpan(row, span)) && Ahead(WithSpan(row, span))
  {
  }

  lemma TornSlotTaken(row: Row)
    requires TraceOk(row) && Ahead(row)
    ensures !SpanFree(row, row.currentStep)
  {
    assert row.spans[row.currentStep].index == row.currentStep;
  }

  lemma SpanKeepsInv(cfg: Config, st: State, span: Span, e: Exec, t: Turn)
    requires Inv(cfg, st) && |st.execs| == 1 && !st.torn
    requires TraceOk(WithSpan(st.row, span)) && Linked(WithSpan(st.row, span))
    requires ExecOk(cfg, st.(row := WithSpan(st.row, span)), e)
    requires t == Turn(WithSpan(st.row, span), st.memory, Some(e))
    ensures Inv(cfg, After(st, 0, t))
  {
    var after := After(st, 0, t);
    assert after.execs == [e];
    assert ExecOk(cfg, after, e);
  }

  lemma RecordKeepsInv(cfg: Config, st: State, index: nat, value: Value, outcome: Outcome, t: Turn)
    requires Inv(cfg, st) && st.execs == [Recording(index, value, outcome)] && index < |cfg.steps|
    requires t == if SpanFree(st.row, index)
      then Turn(WithSpan(st.row, OutcomeSpan(index, cfg.steps[index], value, outcome)), st.memory, Some(SpanDone(index, outcome)))
      else Turn(st.row, st.memory, None)
    ensures Inv(cfg, After(st, 0, t))
  {
    if st.torn {
      TornSlotTaken(st.row);
      LeaveKeepsInv(cfg, st, t);
    } else {
      var span := OutcomeSpan(index, cfg.steps[index], value, outcome);
      NextSpan(st.row, span);
      SpanKeepsInv(cfg, st, span, SpanDone(index, outcome), t);
    }
  }

  lemma SpanDoneKeepsInv(cfg: Config, st: State, index: nat, outcome: Outcome, t: Turn)
    requires Inv(cfg, st) && st.execs == [SpanDone(index, outcome)]
    requires t == match outcome
      case Ok(output) => Turn(AdvanceRow(st.row, index, output), st.memory, Some(AtStep(index + 1, output)))
      case Err(error) => Turn(FailRow(st.row, index, error), st.memory, None)
    ensures Inv(cfg, After(st, 0, t))
  {
    assert Without(st.execs, 0) == [];
    var after := After(st, 0, t);
    assert TraceOk(after.row) && Linked(after.row);
  }

  lemma PauseKeepsInv(cfg: Config, st: State, index: nat, value: Value, a: ApprovalRow, t: Turn)
    requires Inv(cfg, st) && st.execs == [Pausing(index, value)]
    requires a.stepIndex == index && a.status == Pending && index < |cfg.steps| && cfg.steps[index].tool.Approval?
    requires a.approverRoles == cfg.steps[index].tool.approverRoles
    requires t == Turn(st.row.(status := WaitingApproval, output := value, currentStep := index,
                               approvals := st.row.approvals + [a]), st.memory, None)
    ensures Inv(cfg, After(st, 0, t))
  {
    assert Without(st.execs, 0) == [];
    var after := After(st, 0, t);
    AskedApprovals(st, after, a);
    assert WaitingOk(cfg, after);
  }

  lemma AskedApprovals(st: State, after: State, a: ApprovalRow)
    requires ApprovalsOk(st) && Live(st) && st.row.status != WaitingApproval
    requires after.row.status == WaitingApproval && after.execs == [] && after.log == st.log
    requires after.row.approvals == st.row.approvals + [a] && a.stepIndex == after.row.currentStep == st.row.currentStep
    ensures ApprovalsOk(after)
  {
  }

  /******* Approvers and the sweep keep it *******/

  /** A pending approval belongs to the step its run is waiting at, and to no executor. */
  lemma PendingImpliesWaiting(cfg: Config, st: State, k: nat)
    requires Inv(cfg, st) && k < |st.row.approvals| && st.row.approvals[k].status == Pending
    ensures st.row.status == WaitingApproval && st.execs == [] && !st.torn
    ensures k == |st.row.approvals| - 1 && st.row.approvals[k].stepIndex == st.row.currentStep
    ensures |st.row.spans| == st.row.currentStep + 1
    ensures st.row.spans[st.row.currentStep].status == SpanWaiting
    ensures st.row.currentStep !in st.log
  {
  }

  lemma LateKeepsInv(cfg: Config, st: State, k: nat, after: State)
    requires Inv(cfg, st) && k < |st.row.approvals| && st.row.approvals[k].status == Pending
    requires after == st.(row := st.row.(approvals := st.row.approvals[k := st.row.approvals[k].(status := Expired)]),
                          log := st.log[st.row.approvals[k].stepIndex := DecidedTooLate])
    ensures Inv(cfg, after)
  {
    PendingImpliesWaiting(cfg, st, k);
    assert WaitingOk(cfg, after);
  }

  lemma RejectKeepsInv(cfg: Config, st: State, k: nat, decision: Decision, error: Error, after: State)
    requires Inv(cfg, st) && k < |st.row.approvals| && st.row.approvals[k].status == Pending
    requires after == st.(row := st.row.(approvals := st.row.approvals[k := st.row.approvals[k].(status := Declined)],
                                         status := Rejected, error := Some(error)),
                          log := st.log[st.row.approvals[k].stepIndex := Given(decision)])
    ensures Inv(cfg, after)
  {
    PendingImpliesWaiting(cfg, st, k);
  }

  /** Settling touches exactly the waiting span. */
  lemma SettledSpans(row: Row, edited: Option<Value>)
    requires TraceOk(row) && Ahead(row)
    ensures var c := row.currentStep;
      var settled := if edited.Some? then row.spans[c].(output := edited.value, status := SpanCompleted)
                     else row.spans[c].(status := SpanCompleted);
      SettleSpans(row.spans, c, edited) == row.spans[..c] + [settled]
  {
  }

  lemma ResumeKeepsInv(cfg: Config, st: State, k: nat, decision: Decision, settled: Span, after: State)
    requires Inv(cfg, st) && k < |st.row.approvals| && st.row.approvals[k].status == Pending
    requires decision.Approve? && st.row.currentStep < |st.row.spans| && st.row.approvals[k].stepIndex == st.row.currentStep
    requires var open := st.row.spans[st.row.currentStep];
      settled == open.(output := if decision.edited.Some? then decision.edited.value else open.output, status := SpanCompleted)
    requires after == st.(row := st.row.(approvals := st.row.approvals[k := st.row.approvals[k].(status := Approved)],
                                         output := settled.output, spans := st.row.spans[..st.row.currentStep] + [settled],
                                         status := Running, currentStep := st.row.currentStep + 1),
                          log := st.log[st.row.currentStep := Given(decision)], execs := [Starting])
    ensures Inv(cfg, after)
  {
    PendingImpliesWaiting(cfg, st, k);
  }

  lemma DecideKeepsInv(cfg: Config, st: State, k: nat, decision: Decision, role: string, now: int)
    requires Inv(cfg, st)
    ensures Inv(cfg, DecideStep(st, k, decision, role, now))
  {
    var after := DecideStep(st, k, decision, role, now);
    match DecisionOutcome(st.row, k, decision, role, now)
    case TooLate => LateKeepsInv(cfg, st, k, after);
    case RunRejected => RejectKeepsInv(cfg, st, k, decision, after.row.error.value, after);
    case Resumed =>
      PendingImpliesWaiting(cfg, st, k);
      SettledSpans(st.row, decision.edited);
      ResumeKeepsInv(cfg, st, k, decision, after.row.spans[st.row.currentStep], after);
    case _ =>
  }

  /** What a sweep does: it rejects the run whose pending approval is due, or nothing. */
  lemma SweepEffect(cfg: Config, st: State, now: int)
    requires Inv(cfg, st)
    ensures var n := |st.row.approvals|;
      if n > 0 && Sweepable(st.row.approvals[n - 1], now) then
        && st.row.status == WaitingApproval && st.execs == [] && !st.torn
        && st.row.currentStep !in st.log
        && SweepStep(st, now) == st.(
             row := st.row.(status := Rejected, error := Some(ApprovalExpired),
                            approvals := st.row.approvals[n - 1 := st.row.approvals[n - 1].(status := Expired)]),
             log := st.log[st.row.currentStep := TimedOut])
      else SweepStep(st, now) == st
  {
    var n := |st.row.approvals|;
    if n > 0 && Sweepable(st.row.approvals[n - 1], now) {
      PendingImpliesWaiting(cfg, st, n - 1);
      OneSwept(st, now, n - 1);
    } else {
      NoneSwept(st, now);
    }
  }

  lemma OneSwept(st: State, now: int, k: nat)
    requires k < |st.row.approvals| && Sweepable(st.row.approvals[k], now)
    requires forall j | 0 <= j < |st.row.approvals| && st.row.approvals[j].status == Pending :: j == k
    ensures SweepStep(st, now) == st.(
      row := st.row.(status := Rejected, error := Some(ApprovalExpired),
                     approvals := st.row.approvals[k := st.row.approvals[k].(status := Expired)]),
      log := st.log[st.row.approvals[k].stepIndex := TimedOut])
  {
    assert SweptSteps(st.row, now) == {st.row.approvals[k].stepIndex};
    assert ExpireRow(st.row, now).approvals == st.row.approvals[k := st.row.approvals[k].(status := Expired)];
  }

  lemma NoneSwept(st: State, now: int)
    requires forall j | 0 <= j < |st.row.approvals| && st.row.approvals[j].status == Pending :: !st.row.approvals[j].Due(now)
    ensures SweepStep(st, now) == st
  {
    assert SweptSteps(st.row, now) == {};
    assert SweepStep(st, now).log == st.log;
  }

  lemma SweepKeepsInv(cfg: Config, st: State, now: int)
    requires Inv(cfg, st)
    ensures Inv(cfg, SweepStep(st, now))
  {
    SweepEffect(cfg, st, now);
    var after := SweepStep(st, now);
    if after != st {
    }
  }

  /******* So do cancels, crashes, the queue and recovery *******/

  /** Whenever it commits: a cancel takes nothing from an executor but the status. */
  lemma CancelKeepsInv(cfg: Config, st: State)
    requires Inv(cfg, st)
    ensures Inv(cfg, CancelWriteStep(st))
  {
    if st.cancellers > 0 {
      var after := CancelWriteStep(st);
      if st.execs != [] {
        CancelKeepsExecOk(cfg, st, after);
      }
    }
  }

  lemma CancelKeepsExecOk(cfg: Config, st: State, after: State)
    requires Inv(cfg, st) && st.execs != [] && after.memory == st.memory && after.torn == st.torn
    requires after.row == CancelledRow(st.row)
    ensures ExecOk(cfg, after, st.execs[0])
  {
  }

  lemma CrashKeepsInv(cfg: Config, st: State, kept: nat, requests: nat)
    requires Inv(cfg, st)
    ensures Inv(cfg, CrashStep(st, kept, requests))
  {
    var after := CrashStep(st, kept, requests);
    if st.execs != [] {
      assert after.torn == (st.torn || st.execs[0].SpanDone? || st.execs[0].Pausing?);
    }
  }

  lemma ClaimKeepsInv(cfg: Config, st: State)
    requires Inv(cfg, st)
    ensures Inv(cfg, ClaimStep(st))
  {
    if st.queue > 0 && st.row.status == Queued {
      TakenUpKeepsInv(cfg, st, ClaimStep(st));
    }
  }

  lemma TakenUpKeepsInv(cfg: Config, st: State, after: State)
    requires Inv(cfg, st) && st.row.status == Queued && st.queue > 0
    requires after == st.(queue := st.queue - 1, row := st.row.(status := Running), execs := [Starting])
    ensures Inv(cfg, after)
  {
  }

  lemma RecoverKeepsInv(cfg: Config, st: State)
    requires Inv(cfg, st) && st.execs == []
    ensures Inv(cfg, RecoverStep(st))
  {
    var after := RecoverStep(st);
  }

  lemma QueueKeepsInv(cfg: Config, st: State, l: Label)
    requires Inv(cfg, st) && (l.Submit? || l.Claim? || l.Recover? || l.Crash?)
    ensures Inv(cfg, Apply(cfg, st, l))
  {
    match l
    case Crash(kept, requests) => CrashKeepsInv(cfg, st, kept, requests);
    case Claim => ClaimKeepsInv(cfg, st);
    case Recover => if st.execs == [] { RecoverKeepsInv(cfg, st); }
    case Submit =>
  }

  /** However often a queued run is submitted, it is executed once: the first worker that
      takes a queue entry claims the run, and the others find it claimed. */
  lemma SecondEntryFindsNothing(cfg: Config, st: State)
    requires st.row.status == Queued && st.execs == []
    ensures var claimed := Apply(cfg, Apply(cfg, Apply(cfg, st, Submit), Submit), Claim);
      && claimed.execs == [Starting] && claimed.row == st.row.(status := Running) && claimed.queue == st.queue + 1
      && Apply(cfg, claimed, Claim) == claimed.(queue := st.queue)
  {
  }

  /** A crash ends the executors and keeps as much of the queue and of the pending cancel
      requests as it names; recovery then adds one entry for a run that is not finished. */
  lemma RecoveryResubmits(cfg: Config, st: State, kept: nat, requests: nat)
    requires st.row.status == Queued || st.row.status == Running
    ensures var after := Apply(cfg, Apply(cfg, st, Crash(kept, requests)), Recover);
      && after.execs == [] && after.row == st.row.(status := Queued) && after.memory == st.memory && after.log == st.log
      && (kept <= st.queue ==> after.queue == kept + 1) && (kept >= st.queue ==> after.queue == st.queue + 1)
      && (requests <= st.cancellers ==> after.cancellers == requests)
      && (requests >= st.cancellers ==> after.cancellers == st.cancellers)
  {
  }

  /** Every action of every actor keeps the invariant. */
  lemma ApplyKeepsInv(cfg: Config, st: State, l: Label)
    requires Inv(cfg, st)
    ensures Inv(cfg, Apply(cfg, st, l))
  {
    match l
    case Execute(k, now) => if k < |st.execs| { ExecKeepsInv(cfg, st, k, now); }
    case Decide(k, decision, role, now) => DecideKeepsInv(cfg, st, k, decision, role, now);
    case Sweep(now) => SweepKeepsInv(cfg, st, now);
    case CancelCheck =>
    case CancelWrite => CancelKeepsInv(cfg, st);
    case _ => QueueKeepsInv(cfg, st, l);
  }

  lemma {:induction false} ReachableInv(cfg: Config, st: State, ls: seq<Label>)
    requires Inv(cfg, st)
    ensures Inv(cfg, RunAll(cfg, st, ls))
    decreases |ls|
  {
    if ls != [] {
      ApplyKeepsInv(cfg, st, ls[0]);
      ReachableInv(cfg, Apply(cfg, st, ls[0]), ls[1..]);
    }
  }
}
