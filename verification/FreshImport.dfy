/**
  Import into a project without secrets, as every import is at first: packages do not
  carry them.  A workflow keeps its meaning there exactly as long as it gets past no
  step that names a credential of its original project.
  */
module FreshImport {
  import opened Prelude
  import opened Json
  import opened Runs
  import opened Renaming
  import opened ProjectImport
  import opened ImportMeaning
  import I = Interpreter
  import InterpreterFold
  import P = RunProtocol
  import R = RunRefinement

  /******* Projects without secrets *******/

  ghost predicate NoSecrets(project: int, secrets: Secrets) {
    forall name :: (project, name) !in secrets
  }

  /** Some step of the package names a credential that its project has. */
  ghost predicate NeedsCredentials(p: Package, project: int, secrets: Secrets) {
    exists i, j | 0 <= i < |p.workflows| && 0 <= j < |p.workflows[i].steps| ::
      var credential := Credential(p.workflows[i].steps[j].tool);
      credential.Some? && (project, credential.value) in secrets
  }

  /** Secrets are not exported: a fresh project agrees with the original one exactly if
      the package needs no credential that the original project has. */
  lemma FreshProjectAgreesExactly(n: Names, p: Package, s1: Secrets, s2: Secrets)
    requires NoSecrets(n.project2, s2)
    ensures AgreeOnCredentials(n, p, s1, s2) <==> !NeedsCredentials(p, n.project1, s1)
  {
    if AgreeOnCredentials(n, p, s1, s2) {
      forall i, j | 0 <= i < |p.workflows| && 0 <= j < |p.workflows[i].steps| && Credential(p.workflows[i].steps[j].tool).Some?
        ensures (n.project1, Credential(p.workflows[i].steps[j].tool).value) !in s1
      {
        assert SameCredentials(n, p.workflows[i].steps, s1, s2);
        assert SameSecret(n, s1, s2, Credential(p.workflows[i].steps[j].tool).value);
      }
    } else {
      var i :| 0 <= i < |p.workflows| && !SameCredentials(n, p.workflows[i].steps, s1, s2);
      var j :| 0 <= j < |p.workflows[i].steps| && Credential(p.workflows[i].steps[j].tool).Some?
               && !SameSecret(n, s1, s2, Credential(p.workflows[i].steps[j].tool).value);
      assert (n.project1, Credential(p.workflows[i].steps[j].tool).value) in s1;
    }
  }

  /** So importing into a fresh project preserves meaning wherever no credential is needed,
      in particular for packages that name none. */
  lemma {:induction false} FreshImportPreservesMeaning(o: Oracle, now: int, p: Package, n: Names, orig: seq<int>,
                                                       rows: seq<WorkflowRow>, left: I.World, right: I.World, i: nat,
                                                       original: int, imported: int, input: Value, maxSteps: int,
                                                       role: string)
    requires Validate(p) == None && Originals(p, orig) && n.ids == NewIds(orig, |rows|) && n.project2 >= 0
    requires I.Valid(left) && HoldsPackage(p, orig, n.project1, left.workflows)
    requires I.Valid(right) && right.workflows == WorkflowsOf(ImportedTable(rows, n.project2, p.workflows))
    requires SameMemory(n, left.memory, right.memory)
    requires NoSecrets(n.project2, right.secrets) && !NeedsCredentials(p, n.project1, left.secrets)
    requires i < |orig| && original == orig[i] && imported == |rows| + i
    ensures EndedAlike(n, |left.runs|, |right.runs|,
                       I.StartRun(o, now, left, original, input, None, maxSteps, role),
                       I.StartRun(o, now, right, imported, input, None, maxSteps, role))
  {
    FreshProjectAgreesExactly(n, p, left.secrets, right.secrets);
    ImportPreservesMeaning(o, now, p, n, orig, rows, left, right, i, original, imported, input, maxSteps, role);
  }

  /** And where one is needed the meaning changes: a workflow that begins with such a
      step gets past it in the original project, and fails there in the fresh one. */
  lemma {:induction false} MissingCredentialChangesMeaning(o: Oracle, now: int, left: I.World, right: I.World, original: int,
                                                           imported: int, name: string, input: Value, maxSteps: int,
                                                           role: string)
    requires I.Valid(left) && original in left.workflows && InterpreterFold.Local(left.workflows[original].steps)
    requires I.Valid(right) && imported in right.workflows && right.workflows[imported].steps == left.workflows[original].steps
    requires left.workflows[original].steps != [] && maxSteps > 0 && RoleAllowed(left.workflows[original].steps[0], role)
    requires Credential(left.workflows[original].steps[0].tool) == Some(name)
    requires (left.workflows[original].project, name) in left.secrets
    requires (right.workflows[imported].project, name) !in right.secrets
    requires var secret := left.secrets[(left.workflows[original].project, name)];
      o(left.workflows[original].steps[0].tool, Some(secret), input, 0).Ok?
    ensures var end1 := I.StartRun(o, now, left, original, input, None, maxSteps, role).0.runs[|left.runs|];
      var end2 := I.StartRun(o, now, right, imported, input, None, maxSteps, role).0.runs[|right.runs|];
      && end1.spans != [] && end1.spans[0].status == SpanCompleted
      && end2.status == Failed && end2.error == Some(MissingCredential(name))
  {
    var steps := left.workflows[original].steps;
    FirstSpanCompletes(o, now, left, original, name, input, maxSteps, role);
    FirstStepFails(o, now, right, imported, name, input, maxSteps, role);
  }

  lemma {:induction false} FirstSpanCompletes(o: Oracle, now: int, w: I.World, workflow: int, name: string, input: Value,
                                              maxSteps: int, role: string)
    requires I.Valid(w) && workflow in w.workflows && InterpreterFold.Local(w.workflows[workflow].steps)
    requires w.workflows[workflow].steps != [] && maxSteps > 0 && RoleAllowed(w.workflows[workflow].steps[0], role)
    requires Credential(w.workflows[workflow].steps[0].tool) == Some(name)
    requires (w.workflows[workflow].project, name) in w.secrets
    requires o(w.workflows[workflow].steps[0].tool, Some(w.secrets[(w.workflows[workflow].project, name)]), input, 0).Ok?
    ensures var end := I.StartRun(o, now, w, workflow, input, None, maxSteps, role).0.runs[|w.runs|];
      end.spans != [] && end.spans[0].status == SpanCompleted
  {
    var cfg := InterpreterFold.ConfigFor(o, w, workflow, input, maxSteps, role);
    InterpreterFold.ExecutionIsFold(o, now, w, workflow, input, maxSteps, role);
    var outcome := P.StepOutcome(cfg, w.memory, 0, input);
    assert outcome == o(cfg.steps[0].tool, Some(w.secrets[(cfg.project, name)]), input, 0);
    var span := CompletedSpan(0, cfg.steps[0], input, outcome.value);
    R.FoldExtends(cfg, map[], P.StepMemory(cfg, w.memory, 0, input), 1, outcome.value, outcome.value, [span]);
    assert [] + [span] == [span];
  }

  lemma {:induction false} FirstStepFails(o: Oracle, now: int, w: I.World, workflow: int, name: string, input: Value,
                                          maxSteps: int, role: string)
    requires I.Valid(w) && workflow in w.workflows && InterpreterFold.Local(w.workflows[workflow].steps)
    requires w.workflows[workflow].steps != [] && maxSteps > 0 && RoleAllowed(w.workflows[workflow].steps[0], role)
    requires Credential(w.workflows[workflow].steps[0].tool) == Some(name)
    requires (w.workflows[workflow].project, name) !in w.secrets
    ensures var end := I.StartRun(o, now, w, workflow, input, None, maxSteps, role).0.runs[|w.runs|];
      end.status == Failed && end.error == Some(MissingCredential(name))
  {
    var cfg := InterpreterFold.ConfigFor(o, w, workflow, input, maxSteps, role);
    InterpreterFold.ExecutionIsFold(o, now, w, workflow, input, maxSteps, role);
    AlwaysFails((a: nat) => LocalOutcome(o, cfg.project, cfg.secrets, w.memory, cfg.steps[0].tool, input, a),
                0, Retries(cfg.steps[0]), MissingCredential(name));
  }

  lemma {:induction false} AlwaysFails(results: nat -> Outcome, attempt: nat, retries: nat, error: Error)
    requires attempt <= retries && forall a :: results(a) == Err(error)
    ensures FirstSuccess(results, attempt, retries) == Err(error)
    decreases retries - attempt
  {
    if attempt < retries {
      AlwaysFails(results, attempt + 1, retries, error);
    }
  }

  /******* What a missing credential changes, exactly *******/

  /** The step names a credential that the project has. */
  predicate NeedsSecret(tool: Tool, project: int, secrets: Secrets) {
    Credential(tool).Some? && (project, Credential(tool).value) in secrets
  }

  /** From step `from` on, some step that needs a secret has a completed span. */
  predicate GotPast(steps: seq<Step>, project: int, secrets: Secrets, spans: seq<Span>, from: nat) {
    exists i | from <= i < |spans| && i < |steps| :: spans[i].status == SpanCompleted && NeedsSecret(steps[i].tool, project, secrets)
  }

  /** Equal but for the text of an error. */
  predicate AlikeSpan(a: Span, b: Span) {
    b == a.(error := b.error) && (a.error.Some? <==> b.error.Some?)
  }

  predicate AlikeSpans(a: seq<Span>, b: seq<Span>) {
    |a| == |b| && forall i | 0 <= i < |a| :: AlikeSpan(a[i], b[i])
  }

  predicate Alike(a: P.Final, b: P.Final) {
    a.status == b.status && a.output == b.output && AlikeSpans(a.spans, b.spans)
  }

  /** One workflow in two projects, the right one without secrets. */
  ghost predicate Twins(n: Names, left: P.Config, right: P.Config) {
    && right == left.(project := right.project, secrets := right.secrets)
    && left.project == n.project1 && right.project == n.project2
    && InterpreterFold.Local(left.steps) && NoSecrets(right.project, right.secrets)
  }

  lemma {:induction false} SameSuccess(f: nat -> Outcome, g: nat -> Outcome, attempt: nat, retries: nat)
    requires attempt <= retries && forall a :: f(a) == g(a)
    ensures FirstSuccess(f, attempt, retries) == FirstSuccess(g, attempt, retries)
    decreases retries - attempt
  {
    if attempt < retries {
      SameSuccess(f, g, attempt + 1, retries);
    }
  }

  /** A step that needs no secret of the left project gives the same on both sides. */
  lemma SameStep(n: Names, left: P.Config, right: P.Config, m1: Memory, m2: Memory, index: nat, value: Value)
    requires Twins(n, left, right) && SameMemory(n, m1, m2) && index < |left.steps|
    requires !NeedsSecret(left.steps[index].tool, left.project, left.secrets)
    ensures P.StepOutcome(left, m1, index, value) == P.StepOutcome(right, m2, index, value)
    ensures SameMemory(n, P.StepMemory(left, m1, index, value), P.StepMemory(right, m2, index, value))
  {
    var tool := left.steps[index].tool;
    forall a: nat
      ensures LocalOutcome(left.oracle, left.project, left.secrets, m1, tool, value, a)
           == LocalOutcome(right.oracle, right.project, right.secrets, m2, tool, value, a)
    {
    }
    SameSuccess((a: nat) => LocalOutcome(left.oracle, left.project, left.secrets, m1, tool, value, a),
                (a: nat) => LocalOutcome(right.oracle, right.project, right.secrets, m2, tool, value, a),
                0, Retries(left.steps[index]));
  }

  /** A step that needs one fails on the right. */
  lemma SecretStepFails(n: Names, left: P.Config, right: P.Config, memory: Memory, index: nat, value: Value)
    requires Twins(n, left, right) && index < |left.steps| && NeedsSecret(left.steps[index].tool, left.project, left.secrets)
    ensures P.StepOutcome(right, memory, index, value) == Err(MissingCredential(Credential(left.steps[index].tool).value))
  {
    var tool := right.steps[index].tool;
    AlwaysFails((a: nat) => LocalOutcome(right.oracle, right.project, right.secrets, memory, tool, value, a),
                0, Retries(right.steps[index]), MissingCredential(Credential(tool).value));
  }

  /** A fold stays a fold of the spans it has, and its next span decides whether the
      step at `index` was got past. */
  lemma GotPastOneMore(steps: seq<Step>, project: int, secrets: Secrets, spans: seq<Span>, index: nat)
    requires index < |spans| && index < |steps|
    requires spans[index].status == SpanCompleted ==> !NeedsSecret(steps[index].tool, project, secrets)
    ensures GotPast(steps, project, secrets, spans, index) <==> GotPast(steps, project, secrets, spans, index + 1)
  {
  }

  lemma SameSpansAlike(spans: seq<Span>)
    ensures AlikeSpans(spans, spans)
  {
  }

  /** Both folds end here, the left one without having got past the step at `index`. */
  lemma EndAlike(cfg: P.Config, a: P.Final, b: P.Final, spans: seq<Span>, last: Span, other: Span)
    requires a.status == b.status && a.output == b.output && a.spans == spans + [last] && b.spans == spans + [other]
    requires AlikeSpan(last, other) && last.status != SpanCompleted
    ensures Alike(a, b) && !GotPast(cfg.steps, cfg.project, cfg.secrets, a.spans, |spans|)
  {
  }

  /** A step that needs a secret: the left fold gets past it, and the folds differ, or
      both fail. */
  lemma {:induction false} SecretStepDecides(n: Names, left: P.Config, right: P.Config, log: map<nat, P.Verdict>, m1: Memory,
                                             m2: Memory, index: nat, value: Value, output: Value, spans: seq<Span>,
                                             a: P.Final, b: P.Final)
    requires Twins(n, left, right) && index == |spans| && P.Gated(left, index)
    requires NeedsSecret(left.steps[index].tool, left.project, left.secrets)
    requires a == P.Fold(left, log, m1, index, value, output, spans) && b == P.Fold(right, log, m2, index, value, output, spans)
    ensures Alike(a, b) <==> !GotPast(left.steps, left.project, left.secrets, a.spans, index)
  {
    var step := left.steps[index];
    SecretStepFails(n, left, right, m2, index, value);
    var failed := FailedSpan(index, step, value, MissingCredential(Credential(step.tool).value));
    assert b.spans == spans + [failed];
    match P.StepOutcome(left, m1, index, value)
    case Err(error) =>
      EndAlike(left, a, b, spans, FailedSpan(index, step, value, error), failed);
    case Ok(result) =>
      var completed := CompletedSpan(index, step, value, result);
      R.FoldExtends(left, log, P.StepMemory(left, m1, index, value), index + 1, result, result, spans + [completed]);
      assert a.spans[index] == (spans + [completed])[index] == completed;
      assert b.spans[index] == failed;
      assert !AlikeSpan(completed, failed);
  }

  /** Two local folds from anywhere: they agree on status, output and spans, up to the
      texts of errors, if and only if the left one gets past no step that needs a
      secret of its project. */
  lemma {:induction false} FoldsAlikeExactly(n: Names, left: P.Config, right: P.Config, log: map<nat, P.Verdict>, m1: Memory,
                                             m2: Memory, index: nat, value: Value, output: Value, spans: seq<Span>,
                                             a: P.Final, b: P.Final)
    requires Twins(n, left, right) && SameMemory(n, m1, m2) && index == |spans|
    requires a == P.Fold(left, log, m1, index, value, output, spans) && b == P.Fold(right, log, m2, index, value, output, spans)
    ensures Alike(a, b) <==> !GotPast(left.steps, left.project, left.secrets, a.spans, index)
    decreases |left.steps| - index, 0
  {
    if !P.Gated(left, index) {
      assert a.spans == spans && b.spans == spans;
      SameSpansAlike(spans);
    } else if left.steps[index].tool.Approval? {
      ApprovalsAlikeExactly(n, left, right, log, m1, m2, index, value, spans, a, b);
    } else if NeedsSecret(left.steps[index].tool, left.project, left.secrets) {
      SecretStepDecides(n, left, right, log, m1, m2, index, value, output, spans, a, b);
    } else {
      SameStep(n, left, right, m1, m2, index, value);
      match P.StepOutcome(left, m1, index, value)
      case Err(error) =>
        var failed := FailedSpan(index, left.steps[index], value, error);
        EndAlike(left, a, b, spans, failed, failed);
      case Ok(result) =>
        AdvanceAlikeExactly(n, left, right, log, P.StepMemory(left, m1, index, value), P.StepMemory(right, m2, index, value),
                            index, value, result, spans, a, b);
    }
  }

  /** Both folds complete a step that needs no secret. */
  lemma {:induction false} AdvanceAlikeExactly(n: Names, left: P.Config, right: P.Config, log: map<nat, P.Verdict>,
                                               m1: Memory, m2: Memory, index: nat, value: Value, result: Value,
                                               spans: seq<Span>, a: P.Final, b: P.Final)
    requires Twins(n, left, right) && SameMemory(n, m1, m2) && index == |spans| < |left.steps|
    requires !NeedsSecret(left.steps[index].tool, left.project, left.secrets)
    requires var more := spans + [CompletedSpan(index, left.steps[index], value, result)];
      && a == P.Fold(left, log, m1, index + 1, result, result, more)
      && b == P.Fold(right, log, m2, index + 1, result, result, more)
    ensures Alike(a, b) <==> !GotPast(left.steps, left.project, left.secrets, a.spans, index)
    decreases |left.steps| - index - 1, 1
  {
    var more := spans + [CompletedSpan(index, left.steps[index], value, result)];
    FoldsAlikeExactly(n, left, right, log, m1, m2, index + 1, result, result, more, a, b);
    R.FoldExtends(left, log, m1, index + 1, result, result, more);
    GotPastOneMore(left.steps, left.project, left.secrets, a.spans, index);
  }

  lemma {:induction false} ApprovalsAlikeExactly(n: Names, left: P.Config, right: P.Config, log: map<nat, P.Verdict>,
                                                 m1: Memory, m2: Memory, index: nat, value: Value, spans: seq<Span>,
                                                 a: P.Final, b: P.Final)
    requires Twins(n, left, right) && SameMemory(n, m1, m2) && index == |spans| < |left.steps|
    requires left.steps[index].tool.Approval?
    requires a == P.FoldApproval(left, log, m1, index, value, spans) && b == P.FoldApproval(right, log, m2, index, value, spans)
    ensures Alike(a, b) <==> !GotPast(left.steps, left.project, left.secrets, a.spans, index)
    decreases |left.steps| - index - 1, 2
  {
    if index in log && log[index].Given? && log[index].decision.Approve? {
      var edited := log[index].decision.edited;
      var result := if edited.Some? then edited.value else value;
      AdvanceAlikeExactly(n, left, right, log, m1, m2, index, value, result, spans, a, b);
    } else {
      var waiting := WaitingSpan(index, left.steps[index], value);
      EndAlike(left, a, b, spans, waiting, waiting);
    }
  }

  /** A local workflow in a project and its copy in one without secrets, started from
      equal input, role, budget and project memory: the two runs agree on status, output
      and spans, up to the texts of errors, if and only if the original run gets past no
      step that needs a secret. */
  lemma {:induction false} FreshCopyAlikeExactly(o: Oracle, now: int, n: Names, left: I.World, right: I.World, original: int,
                                                 copy: int, input: Value, maxSteps: int, role: string, end1: I.World,
                                                 end2: I.World)
    requires I.Valid(left) && original in left.workflows && left.workflows[original].project == n.project1
    requires I.Valid(right) && copy in right.workflows
    requires right.workflows[copy] == I.Workflow(n.project2, left.workflows[original].steps)
    requires InterpreterFold.Local(left.workflows[original].steps)
    requires SameMemory(n, left.memory, right.memory) && NoSecrets(n.project2, right.secrets)
    requires end1 == I.StartRun(o, now, left, original, input, None, maxSteps, role).0
    requires end2 == I.StartRun(o, now, right, copy, input, None, maxSteps, role).0
    ensures |left.runs| < |end1.runs| && |right.runs| < |end2.runs|
    ensures RunsAlike(end1.runs[|left.runs|], end2.runs[|right.runs|]) <==>
              !GotPast(left.workflows[original].steps, n.project1, left.secrets, end1.runs[|left.runs|].spans, 0)
  {
    var cfg1 := InterpreterFold.ConfigFor(o, left, original, input, maxSteps, role);
    var cfg2 := InterpreterFold.ConfigFor(o, right, copy, input, maxSteps, role);
    InterpreterFold.ExecutionIsFold(o, now, left, original, input, maxSteps, role);
    InterpreterFold.ExecutionIsFold(o, now, right, copy, input, maxSteps, role);
    FoldsAlikeExactly(n, cfg1, cfg2, map[], left.memory, right.memory, 0, input, Null, [],
                      P.FinalOf(end1.runs[|left.runs|], end1.memory), P.FinalOf(end2.runs[|right.runs|], end2.memory));
  }

  predicate RunsAlike(a: Row, b: Row) {
    a.status == b.status && a.output == b.output && AlikeSpans(a.spans, b.spans)
  }

  lemma LocalStepsKeepTheirNames(steps: seq<Step>, ids: map<int, int>)
    requires InterpreterFold.Local(steps)
    ensures RenameSteps(steps, ids) == steps
  {
  }

  /** For an imported package: the i-th workflow, if it hands nothing off. */
  lemma {:induction false} FreshImportAlikeExactly(o: Oracle, now: int, p: Package, n: Names, orig: seq<int>,
                                                   rows: seq<WorkflowRow>, left: I.World, right: I.World, i: nat,
                                                   original: int, imported: int, input: Value, maxSteps: int, role: string,
                                                   end1: I.World, end2: I.World)
    requires Validate(p) == None && Originals(p, orig) && n.project2 >= 0
    requires I.Valid(left) && HoldsPackage(p, orig, n.project1, left.workflows)
    requires I.Valid(right) && right.workflows == WorkflowsOf(ImportedTable(rows, n.project2, p.workflows))
    requires SameMemory(n, left.memory, right.memory) && NoSecrets(n.project2, right.secrets)
    requires i < |orig| && original == orig[i] && imported == |rows| + i && InterpreterFold.Local(p.workflows[i].steps)
    requires end1 == I.StartRun(o, now, left, original, input, None, maxSteps, role).0
    requires end2 == I.StartRun(o, now, right, imported, input, None, maxSteps, role).0
    ensures |left.runs| < |end1.runs| && |right.runs| < |end2.runs|
    ensures RunsAlike(end1.runs[|left.runs|], end2.runs[|right.runs|]) <==>
              !GotPast(p.workflows[i].steps, n.project1, left.secrets, end1.runs[|left.runs|].spans, 0)
  {
    ImportedAt(p, orig, rows, n.project2, i);
    LocalStepsKeepTheirNames(p.workflows[i].steps, NewIds(orig, |rows|));
    FreshCopyAlikeExactly(o, now, n, left, right, original, imported, input, maxSteps, role, end1, end2);
  }
}
