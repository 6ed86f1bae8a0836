/**
  What one call of a tool gives and leaves behind, and how a step retries it, in
  terms of the step's own settings: handoffs, memory tools, credentials and
  approvals (`_invoke_tool`, `_invoke_llm`, `_apply_agent_tool`,
  `_pause_for_approval`).
  */
module ToolLaws {
  import opened Prelude
  import opened Json
  import opened Runs
  import opened Interpreter
  import RunTrace

  /** A redacted value: no secret in it, and the same as the original elsewhere. */
  ghost predicate RedactedFrom(view: Value, original: Value) {
    Clean(view) && SameModuloSecrets(view, original)
  }

  lemma {:induction false} ViewIsRedacted(v: Value)
    ensures RedactedFrom(Redact(v), v)
  {
    RedactFixesExactlyCleanValues(v);
    RedactIdempotent(v);
    RedactionHidesExactlySecrets(Redact(v), v);
  }

  /** Only one value is the redacted form of another. */
  lemma {:induction false} RedactedFromOne(view: Value, original: Value)
    requires RedactedFrom(view, original)
    ensures view == Redact(original)
  {
    RedactFixesExactlyCleanValues(view);
    RedactionHidesExactlySecrets(view, original);
  }

  /******* Starting a run *******/

  /** Why a start fails: the workflow or the parent does not exist, or the parent's
      workflow belongs to another project. */
  lemma {:induction false} StartFailsExactly(o: Oracle, now: int, w: World, workflow: int, input: Value, parent: Option<nat>,
                                             maxSteps: int, role: string)
    requires Valid(w)
    ensures var r := StartRun(o, now, w, workflow, input, parent, maxSteps, role).1;
      && (r == Failure(NotFound) <==> workflow !in w.workflows || (parent.Some? && parent.value >= |w.runs|))
      && (r == Failure(WrongProject) <==>
            && workflow in w.workflows && parent.Some? && parent.value < |w.runs|
            && w.workflows[w.runs[parent.value].workflow].project != w.workflows[workflow].project)
      && (r.Failure? ==> r.error == NotFound || r.error == WrongProject)
  {
  }

  /******* Handoffs *******/

  /** The run a handoff starts: the target workflow on the step's value, under the
      caller, with the caller's role and the step's own budget. */
  ghost predicate ChildOf(w: World, id: nat, tool: Tool, value: Value, child: Row)
    requires id < |w.runs| && tool.Handoff?
  {
    && child.workflow == tool.target && child.parent == Some(id) && child.input == value
    && child.maxSteps == tool.maxSteps && child.role == w.runs[id].role
  }

  /** A handoff succeeds exactly if its child completes, and then returns the child's
      output without its secrets. */
  lemma {:induction false} HandoffGives(o: Oracle, now: int, w: World, id: nat, index: nat, value: Value, attempt: nat,
                                        tool: Tool)
    requires Valid(w) && id < |w.runs| && index < |StepsOf(w, id)| && attempt <= 5
    requires tool == StepsOf(w, id)[index].tool && tool.Handoff?
    ensures var (w1, outcome) := Invoke(o, now, w, id, index, value, attempt);
      if tool.target !in w.workflows then w1 == w && outcome == Err(NotFound)
      else if w.workflows[tool.target].project != ProjectOf(w, id) then w1 == w && outcome == Err(WrongProject)
      else if tool.target in Ancestry(w.runs, id) then w1 == w && outcome == Err(LoopDetected)
      else
        && |w.runs| < |w1.runs| && ChildOf(w, id, tool, value, w1.runs[|w.runs|])
        && (outcome.Ok? <==> w1.runs[|w.runs|].status == Completed)
        && (outcome.Ok? ==> RedactedFrom(outcome.value, w1.runs[|w.runs|].output))
        && (outcome.Err? ==> outcome.error == ChildEnded(|w.runs|, w1.runs[|w.runs|].status))
  {
    var (w1, outcome) := Invoke(o, now, w, id, index, value, attempt);
    if outcome.Ok? {
      InvokeHandoff(o, now, w, id, index, value, attempt, tool);
      ViewIsRedacted(w1.runs[|w.runs|].output);
    }
  }

  /******* Project memory *******/

  /** A read gives the stored value without its secrets, or fails, and changes nothing. */
  lemma {:induction false} MemoryReadGives(o: Oracle, now: int, w: World, id: nat, index: nat, value: Value, attempt: nat,
                                           tool: Tool)
    requires Valid(w) && id < |w.runs| && index < |StepsOf(w, id)| && attempt <= 5
    requires tool == StepsOf(w, id)[index].tool && tool.MemoryRead?
    ensures var (w1, outcome) := Invoke(o, now, w, id, index, value, attempt);
      var slot := (ProjectOf(w, id), tool.namespace, tool.key);
      && w1 == w
      && (outcome.Ok? <==> slot in w.memory)
      && (outcome.Ok? ==> RedactedFrom(outcome.value, w.memory[slot]))
      && (outcome.Err? ==> outcome.error == NotFound)
  {
    var slot := (ProjectOf(w, id), tool.namespace, tool.key);
    if slot in w.memory {
      ViewIsRedacted(w.memory[slot]);
    }
  }

  /** A write stores the step's own value, or else the value it is given, under the
      step's key in the run's project, and nothing anywhere else; it passes its input on. */
  lemma {:induction false} MemoryWriteGives(o: Oracle, now: int, w: World, id: nat, index: nat, value: Value, attempt: nat,
                                            tool: Tool)
    requires Valid(w) && id < |w.runs| && index < |StepsOf(w, id)| && attempt <= 5
    requires tool == StepsOf(w, id)[index].tool && tool.MemoryWrite?
    ensures var (w1, outcome) := Invoke(o, now, w, id, index, value, attempt);
      var slot := (ProjectOf(w, id), tool.namespace, tool.key);
      && outcome == Ok(value) && w1.runs == w.runs
      && slot in w1.memory && w1.memory[slot] == (if tool.stored.Some? then tool.stored.value else value)
      && (forall other | other != slot ::
            && (other in w1.memory <==> other in w.memory)
            && (other in w.memory ==> w1.memory[other] == w.memory[other]))
  {
  }

  /** What a run writes, any later run of the project reads, without its secrets. */
  lemma {:induction false} ReadAfterWrite(o: Oracle, now: int, w: World, id: nat, index: nat, value: Value, reader: nat,
                                          step: nat, given: Value, write: Tool, read: Tool)
    requires Valid(w) && id < |w.runs| && index < |StepsOf(w, id)|
    requires reader < |w.runs| && step < |StepsOf(w, reader)| && ProjectOf(w, reader) == ProjectOf(w, id)
    requires write == StepsOf(w, id)[index].tool && write.MemoryWrite?
    requires read == StepsOf(w, reader)[step].tool && read.MemoryRead?
    requires read.namespace == write.namespace && read.key == write.key
    ensures var w1 := Invoke(o, now, w, id, index, value, 0).0;
      var outcome := Invoke(o, now, w1, reader, step, given, 0).1;
      outcome.Ok? && RedactedFrom(outcome.value, if write.stored.Some? then write.stored.value else value)
  {
    var w1 := Invoke(o, now, w, id, index, value, 0).0;
    MemoryWriteGives(o, now, w, id, index, value, 0, write);
    MemoryReadGives(o, now, w1, reader, step, given, 0, read);
  }

  /******* Tools that only compute *******/

  /** The tool is called with the secret its step names, if it names one; a secret the
      project lacks fails the call. */
  lemma {:induction false} BuiltinGives(o: Oracle, now: int, w: World, id: nat, index: nat, value: Value, attempt: nat,
                                        tool: Tool)
    requires Valid(w) && id < |w.runs| && index < |StepsOf(w, id)| && attempt <= 5
    requires tool == StepsOf(w, id)[index].tool && tool.Builtin?
    ensures var (w1, outcome) := Invoke(o, now, w, id, index, value, attempt);
      && w1 == w
      && (if tool.credential.None? || tool.credential.value == "" then outcome == o(tool, None, value, attempt)
          else if (ProjectOf(w, id), tool.credential.value) in w.secrets then
            outcome == o(tool, Some(w.secrets[(ProjectOf(w, id), tool.credential.value)]), value, attempt)
          else outcome == Err(MissingCredential(tool.credential.value)))
  {
  }

  /******* Retries of any tool, handoffs included *******/

  /** From this attempt on the tool is called `calls` times: all calls but the last
      one fail, and the last one leaves `end` and gives `result`. */
  ghost predicate Called(o: Oracle, now: int, w: World, id: nat, index: nat, value: Value, attempt: nat, calls: nat,
                         end: World, result: Outcome)
    decreases calls
  {
    && calls > 0 && Valid(w) && id < |w.runs| && index < |StepsOf(w, id)| && attempt <= 5
    && var (w1, outcome) := Invoke(o, now, w, id, index, value, attempt);
       if calls == 1 then end == w1 && result == outcome
       else outcome.Err? && Called(o, now, w1, id, index, value, attempt + 1, calls - 1, end, result)
  }

  lemma {:induction false} AttemptsAreCalls(o: Oracle, now: int, w: World, id: nat, index: nat, value: Value, attempt: nat,
                                            retries: nat) returns (calls: nat)
    requires Valid(w) && id < |w.runs| && index < |StepsOf(w, id)|
    requires attempt <= retries == Retries(StepsOf(w, id)[index])
    ensures var (end, result) := Attempts(o, now, w, id, index, value, attempt);
      Called(o, now, w, id, index, value, attempt, calls, end, result)
      && attempt + calls <= retries + 1 && (result.Err? ==> attempt + calls == retries + 1)
    decreases 6 - attempt
  {
    var (w1, outcome) := Invoke(o, now, w, id, index, value, attempt);
    AttemptsUnfold(o, now, w, id, index, value, attempt);
    if outcome.Ok? || attempt == retries {
      calls := 1;
    } else {
      var later := AttemptsAreCalls(o, now, w1, id, index, value, attempt + 1, retries);
      calls := later + 1;
    }
  }

  /** A step calls its tool until it succeeds, at most `retries` times more and never
      more than six times in all; its outcome is that of the last call. */
  lemma StepIsRetried(o: Oracle, now: int, w: World, id: nat, index: nat, value: Value, step: Step) returns (calls: nat)
    requires Valid(w) && id < |w.runs| && index < |StepsOf(w, id)| && step == StepsOf(w, id)[index]
    ensures var (end, result) := Attempts(o, now, w, id, index, value, 0);
      && Called(o, now, w, id, index, value, 0, calls, end, result)
      && (calls == 1 || (calls <= 6 && calls <= 1 + step.retries))
      && (result.Err? ==> calls == 6 || calls >= 1 + step.retries)
  {
    calls := AttemptsAreCalls(o, now, w, id, index, value, 0, Retries(step));
  }

  /******* Approvals *******/

  /** A step that asks for approval leaves its run waiting.  The approval can be decided
      until it expires, if it ever does, by the roles the step names or else by admins
      and operators. */
  lemma {:induction false} PausedAsAsked(o: Oracle, now: int, w: World, id: nat, index: nat, value: Value, step: Step,
                                         decision: Decision, role: string, later: int)
    requires Valid(w) && id < |w.runs| && index < |StepsOf(w, id)| && step == StepsOf(w, id)[index] && step.tool.Approval?
    requires w.runs[id].status != Cancelled && index < w.runs[id].maxSteps && SpanFree(w.runs[id], index)
    requires RunTrace.MayUse(step, w.runs[id].role)
    ensures var (w1, result) := Turn(o, now, w, id, index, value);
      var k := |w.runs[id].approvals|;
      && result == None && w1.runs[id].status == WaitingApproval && w1.runs[id].currentStep == index
      && |w1.runs[id].approvals| == k + 1
      && w1.runs[id].approvals[k].stepIndex == index && w1.runs[id].approvals[k].status == Pending
    ensures var row := Turn(o, now, w, id, index, value).0.runs[id];
      DecisionOutcome(row, |w.runs[id].approvals|, decision, role, later)
      == if step.tool.expiresIn > 0 && later >= now + step.tool.expiresIn then TooLate
         else if step.tool.approverRoles != [] && role !in step.tool.approverRoles then RoleDenied
         else if step.tool.approverRoles == [] && role != "admin" && role != "operator" then RoleDenied
         else if decision.Reject? then RunRejected
         else Resumed
  {
  }
}
