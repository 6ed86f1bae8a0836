/**
  Workflow steps, and the row of the `runs` table together with the spans and
  approvals that belong to it.  Every function below is the effect of one
  database transaction on one row (service.py); time columns, prompts and notes
  that nothing reads back are dropped, and table ids are positions.
  */
module Runs {
  import opened Prelude
  import opened Json

  /** `Builtin` stands for the tools that only compute (input, template,
      uppercase, lowercase, json_extract, llm, fail): their result is an oracle.
      An llm step may name a secret of its project (`credential_ref`). */
  datatype Tool =
    | Builtin(name: string, config: Value, credential: Option<string>)
    | MemoryRead(namespace: string, key: string)
    | MemoryWrite(namespace: string, key: string, stored: Option<Value>)
    | Handoff(target: int, maxSteps: int)
    | Approval(approverRoles: seq<string>, expiresIn: int)

  datatype Step = Step(name: string, tool: Tool, retries: int, allowedRoles: Option<seq<string>>)

  datatype Status = Queued | Running | WaitingApproval | Completed | Failed | Rejected | Cancelled {
    predicate Terminal() {
      Completed? || Failed? || Rejected? || Cancelled?
    }
  }

  /** What the `error` column of a run or a span says. */
  datatype Error =
    | ToolError(message: string)
    | NotFound
    | MissingCredential(name: string)
    | WrongProject
    | LoopDetected
    | ChildEnded(child: nat, status: Status)
    | BudgetExceeded
    | PermissionDenied
    | RejectedWith(note: string)
    | ApprovalExpired
    | CancelledByOperator

  datatype SpanStatus = SpanCompleted | SpanFailed | SpanWaiting

  datatype Span = Span(index: nat, name: string, status: SpanStatus, input: Value, output: Value, error: Option<Error>)

  datatype ApprovalStatus = Pending | Approved | Declined | Expired

  datatype ApprovalRow = ApprovalRow(stepIndex: nat, status: ApprovalStatus, approverRoles: seq<string>,
                                     expiresAt: Option<int>)
  {
    /** `expires_at IS NOT NULL AND expires_at <= now` */
    predicate Due(now: int) {
      expiresAt.Some? && expiresAt.value <= now
    }
  }

  datatype Row = Row(
    workflow: int,
    parent: Option<nat>,
    status: Status,
    input: Value,
    output: Value,
    error: Option<Error>,
    currentStep: nat,
    maxSteps: int,
    role: string,
    spans: seq<Span>,
    approvals: seq<ApprovalRow>)

  function NewRow(workflow: int, parent: Option<nat>, status: Status, input: Value, maxSteps: int, role: string): Row {
    Row(workflow, parent, status, input, Null, None, 0, maxSteps, role, [], [])
  }

  /******* Reading a step *******/

  const DEFAULT_ROLES := ["admin", "operator"]

  predicate RoleAllowed(step: Step, role: string) {
    match step.allowedRoles
    case None => role in DEFAULT_ROLES
    case Some(roles) => role in roles
  }

  /** `min(max(retries, 0), 5)`: none if the step asks for none, and otherwise as many as
      it asks for, but five at most. */
  function Retries(step: Step): (r: nat)
    ensures r <= 5 && (r == 0 || r <= step.retries) && (r == 5 || r >= step.retries)
  {
    if step.retries < 0 then 0 else if step.retries > 5 then 5 else step.retries
  }

  /** The value the executor starts from (`run["input"]` or the last output). */
  function CurrentValue(row: Row): Value {
    if row.currentStep == 0 then row.input else row.output
  }

  /******* The executor's writes *******/

  /** `UNIQUE(run_id, step_index)` on spans. */
  predicate SpanFree(row: Row, index: nat) {
    forall k | 0 <= k < |row.spans| :: row.spans[k].index != index
  }

  function WithSpan(row: Row, span: Span): Row {
    row.(spans := row.spans + [span])
  }

  function CompletedSpan(index: nat, step: Step, input: Value, output: Value): Span {
    Span(index, step.name, SpanCompleted, input, output, None)
  }

  function FailedSpan(index: nat, step: Step, input: Value, error: Error): Span {
    Span(index, step.name, SpanFailed, input, Null, Some(error))
  }

  function WaitingSpan(index: nat, step: Step, value: Value): Span {
    Span(index, step.name, SpanWaiting, value, value, None)
  }

  function StopRow(row: Row, error: Error): Row {
    row.(status := Failed, error := Some(error))
  }

  function FailRow(row: Row, index: nat, error: Error): Row {
    row.(status := Failed, error := Some(error), currentStep := index)
  }

  function AdvanceRow(row: Row, index: nat, value: Value): Row {
    row.(output := value, currentStep := index + 1)
  }

  function FinishRow(row: Row, value: Value): Row {
    row.(status := Completed, output := value)
  }

  function PauseRow(row: Row, index: nat, tool: Tool, value: Value, now: int): Row
    requires tool.Approval?
  {
    var expiresAt := if tool.expiresIn > 0 then Some(now + tool.expiresIn) else None;
    row.(status := WaitingApproval, output := value, currentStep := index,
         approvals := row.approvals + [ApprovalRow(index, Pending, tool.approverRoles, expiresAt)])
  }

  /******* Claim, recovery, cancellation *******/

  /** `UPDATE runs SET status='running' WHERE id=? AND status='queued'` */
  function ClaimRow(row: Row): Option<Row> {
    if row.status == Queued then Some(row.(status := Running)) else None
  }

  function RequeueRow(row: Row): Row {
    if row.status == Running then row.(status := Queued) else row
  }

  /** The write of `cancel_run`; it has no guard. */
  function CancelledRow(row: Row): Row {
    row.(status := Cancelled, error := Some(CancelledByOperator),
         approvals := seq(|row.approvals|, k requires 0 <= k < |row.approvals| =>
           if row.approvals[k].status == Pending then row.approvals[k].(status := Declined)
           else row.approvals[k]))
  }

  /** `cancel_run` alone on its run: the check and the write. */
  function CancelRow(row: Row): Option<Row> {
    if row.status.Terminal() then None else Some(CancelledRow(row))
  }

  /******* Decisions and expiry *******/

  datatype Decision = Approve(edited: Option<Value>) | Reject(note: string)

  datatype DecisionResult = NoSuchApproval | AlreadyDecided | TooLate | RoleDenied | Resumed | RunRejected

  predicate ApproverAllowed(a: ApprovalRow, role: string) {
    role in (if a.approverRoles == [] then DEFAULT_ROLES else a.approverRoles)
  }

  function DecisionOutcome(row: Row, k: nat, decision: Decision, role: string, now: int): DecisionResult {
    if k >= |row.approvals| then NoSuchApproval
    else if row.approvals[k].status != Pending then AlreadyDecided
    else if row.approvals[k].Due(now) then TooLate
    else if !ApproverAllowed(row.approvals[k], role) then RoleDenied
    else if decision.Reject? then RunRejected
    else Resumed
  }

  /** `UPDATE spans SET output=?, status='completed' WHERE run_id=? AND step_index=?` */
  function SettleSpans(spans: seq<Span>, index: nat, edited: Option<Value>): seq<Span> {
    seq(|spans|, i requires 0 <= i < |spans| =>
      if spans[i].index != index then spans[i]
      else if edited.Some? then spans[i].(output := edited.value, status := SpanCompleted)
      else spans[i].(status := SpanCompleted))
  }

  function DecideRow(row: Row, k: nat, decision: Decision, role: string, now: int): Row {
    match DecisionOutcome(row, k, decision, role, now)
    case TooLate =>
      row.(approvals := row.approvals[k := row.approvals[k].(status := Expired)])
    case RunRejected =>
      var note := if decision.note == "" then "approval rejected" else decision.note;
      row.(approvals := row.approvals[k := row.approvals[k].(status := Declined)],
           status := Rejected, error := Some(RejectedWith(note)))
    case Resumed =>
      var index := row.approvals[k].stepIndex;
      row.(approvals := row.approvals[k := row.approvals[k].(status := Approved)],
           output := if decision.edited.Some? then decision.edited.value else row.output,
           spans := SettleSpans(row.spans, index, decision.edited),
           status := Running, currentStep := index + 1)
    case _ => row
  }

  predicate Sweepable(a: ApprovalRow, now: int) {
    a.status == Pending && a.Due(now)
  }

  /** One run's share of `expire_approvals`. */
  function ExpireRow(row: Row, now: int): Row {
    if exists k | 0 <= k < |row.approvals| :: Sweepable(row.approvals[k], now) then
      row.(status := Rejected, error := Some(ApprovalExpired),
           approvals := seq(|row.approvals|, k requires 0 <= k < |row.approvals| =>
             if Sweepable(row.approvals[k], now) then row.approvals[k].(status := Expired)
             else row.approvals[k]))
    else row
  }

  /******* One step's tool, with its retries *******/

  datatype Outcome = Ok(value: Value) | Err(error: Error)

  /** What a tool gives for its credential, its input value and the attempt. */
  type Oracle = (Tool, Option<string>, Value, nat) -> Outcome

  type MemoryKey = (int, string, string)

  type Memory = map<MemoryKey, Value>

  /** The plain values of the projects' secrets. */
  type Secrets = map<(int, string), string>

  /** The secret a tool needs: an empty `credential_ref` names none. */
  function Credential(tool: Tool): Option<string> {
    if tool.Builtin? && tool.credential.Some? && tool.credential.value != "" then tool.credential else None
  }

  /** One call of a tool that starts no run: `_invoke_tool`, `_invoke_llm`, and the
      memory half of `_apply_agent_tool`. */
  function LocalOutcome(o: Oracle, project: int, secrets: Secrets, memory: Memory, tool: Tool, value: Value, attempt: nat): Outcome {
    match tool
    case MemoryWrite(_, _, _) => Ok(value)
    case MemoryRead(namespace, key) =>
      if (project, namespace, key) in memory then Ok(Redact(memory[(project, namespace, key)])) else Err(NotFound)
    case _ =>
      match Credential(tool)
      case None => o(tool, None, value, attempt)
      case Some(name) =>
        if (project, name) in secrets then o(tool, Some(secrets[(project, name)]), value, attempt)
        else Err(MissingCredential(name))
  }

  function LocalMemory(project: int, memory: Memory, tool: Tool, value: Value): Memory {
    match tool
    case MemoryWrite(namespace, key, stored) =>
      memory[(project, namespace, key) := if stored.Some? then stored.value else value]
    case _ => memory
  }

  /** The span of a step whose tool ended in `outcome`. */
  function OutcomeSpan(index: nat, step: Step, input: Value, outcome: Outcome): Span {
    match outcome
    case Ok(output) => CompletedSpan(index, step, input, output)
    case Err(error) => FailedSpan(index, step, input, error)
  }

  /** Calling a memory tool again changes neither the memory nor the result. */
  lemma LocalCallsRepeat(o: Oracle, project: int, secrets: Secrets, memory: Memory, tool: Tool, value: Value, attempt: nat)
    ensures var after := LocalMemory(project, memory, tool, value);
      && LocalMemory(project, after, tool, value) == after
      && LocalOutcome(o, project, secrets, after, tool, value, attempt)
         == LocalOutcome(o, project, secrets, memory, tool, value, attempt)
  {
  }

  /** The first attempt that succeeds, or the last attempt's error. */
  function FirstSuccess(results: nat -> Outcome, attempt: nat, retries: nat): Outcome
    requires attempt <= retries
    decreases retries - attempt
  {
    if results(attempt).Ok? || attempt == retries then results(attempt)
    else FirstSuccess(results, attempt + 1, retries)
  }

  /******* What every history looks like *******/

  /** The spans of a run, whatever happened to it: contiguous, chained, and only
      the last one may be open or failed. */
  ghost predicate TraceOk(row: Row) {
    && (forall i | 0 <= i < |row.spans| :: row.spans[i].index == i)
    && (row.spans != [] ==> row.spans[0].input == row.input)
    && (forall i, j | 0 <= i < j < |row.spans| && j == i + 1 :: row.spans[j].input == row.spans[i].output)
    && (forall i | 0 <= i < |row.spans| - 1 :: row.spans[i].status == SpanCompleted)
    && (row.currentStep == |row.spans| || row.currentStep + 1 == |row.spans|)
  }
}
