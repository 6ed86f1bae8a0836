# Verification of the AgentOps workflow engine

This project models the core of AgentOps in Dafny and proves what its design promises: that a
workflow run is the same however often it is queued, paused, crashed or recovered; that
handoffs between workflows terminate; that importing a project preserves the meaning of its
workflows; that the outbox delivers exclusively and within bounds; and the properties of
evaluations, streaming, rate limiting, timestamps, idempotency keys and paging that the service
relies on.

`dafny verify dfyconfig.toml` checks everything.

## How the model is built

- `Json`, `Text`, `Prelude`: JSON values and `redact`, string helpers, `Option` and `Result`.
- `Runs`: a row of `runs` with its spans and approvals, and the effect of each transaction on it.
- `RunProtocol`, `RunRefinement`, `RunTrace`: one run under concurrency, as a state machine over
  single transactions, its refinement of a pure fold over the steps, and what the fold's result says
  about the settings of the steps, with no reference to how it is computed.
- `Interpreter`, `InterpreterFold`, `ToolLaws`, `HandoffBounds`, `HandoffTree`: the recursive
  interpreter over all runs and the project memory, its agreement with the fold, what each tool
  gives, its bounds and the run tree.
- `AgentOps`: the service as a class whose methods update its tables in place, each proved equal
  to the interpreter; approval listing and expiry.
- `Renaming`, `Datasets`, `ProjectImport`, `ImportMeaning`, `FreshImport`: packages, import and export.
- `OutboxProtocol`, `Outbox`: the claim protocol for many workers, and the outbox table.
- `Timestamps`, `RateLimiter`, `MockProvider`, `Streaming`, `Idempotency`, `Paging`, `Evaluation`,
  `EvaluationDiff`: one component each.

Modelling decisions:

- Each `with db.connect()` block is one atomic transaction. In the state machine of a run every
  status check and every write is a step of its own: a cancel request checks in one step and writes,
  unguarded, in another, and an executor has states between each check and the write behind it.
- Tools, model calls and sends are oracles: a builtin tool's result is a function of the tool, the
  secret its step names, its input value and the attempt. Clock readings are inputs; one reading
  serves a whole call of the interpreter, where it only sets when approvals expire.
- An llm step may name a secret of its project; the step fails if the project lacks it. Secrets
  are held in plain form.
- Ids are positions in tables. An approval is addressed by its run and its position there.
- Numbers in JSON values are integers. `str.lower` is modelled for the letters A-Z and the Kelvin
  sign, the only characters that lower to ASCII letters one for one.
- Durations, costs and the limiter's clock are reals; `int(n * 0.95)` is `95 * n / 100`.
- Byte-wise collation is assumed where timestamps are compared as strings.
- `time.monotonic` is read and used without an await in between, so the limiter's timestamps do
  not decrease.

One assumption is built into the state machine of a run: recovery runs when no executor is alive. In
the default mode, with a single process, it does. With several, every process in mode `all` or
`worker` recovers at its own start (main.py:67-68) and may find a run that another one executes.
`RecoverySafeExactlyWithoutExecutors` says that the assumption is needed exactly there.
Cancels are not restricted: they may commit anywhere, and the main theorem holds all the same.

## Where the code does less than its documentation says

- docs/ARCHITECTURE.md says that interrupted running work is recovered on startup. A crash between
  the insert of a span and the update of its run leaves a run that no execution can finish, because
  the span's slot is taken (`CrashTears` gives such a history for every run whose first step calls a
  tool). An interrupted run can be brought to rest if and only if there is no span yet for the step
  its row names (`RecoverableExactlyWhenSlotFree`).
- docs/ARCHITECTURE.md says that terminal history is never rewritten. `cancel_run` checks the status
  in one transaction and writes in another, so every run that would complete undisturbed can be
  rewritten after it has (`CompletedRunRewritten`). An executor between a check and its write
  overwrites a cancel, and every such run can complete over one (`CancelledRunCompletes`).
  `TerminalIsFinalExactly` and `CancelStandsExactlyWhenInterruptible` give the exact conditions,
  `TerminalRewrittenExactly` the actions that do it.
- docs/ARCHITECTURE.md says that expiry rejects the run. Deciding an approval that has expired marks
  only the approval; the run then waits until it is cancelled. A waiting run can go on if and only if
  nobody decided its approval too late (`WaitingRunLeavesExactlyWhenUndecided`), and a decision keeps
  it able to go on if and only if it comes in time (`DecisionCountsExactlyInTime`).
- The docstring of `_claim_outbox` says that concurrent replicas never deliver a row twice. That
  holds as long as holders finish within their lease; a late holder's final update has no guard and
  can reopen a delivered row (`SecondClaimSucceedsExactlyWhenHolderLate`,
  `LateHolderReopensDelivered`).
- The docstring of `_generate_mock` says that chunks rebuild the text for every text. They do exactly
  when the text has no leading whitespace or is all whitespace; the answers the provider gives never
  start with whitespace.
- The idempotency key "" is stored but never looked up, so a second direct call of `start_run` with
  it raises. The HTTP route answers 422 to such a key (main.py:347-349), so this concerns callers
  inside the service only.
- A package does not carry secrets, so a step that names a credential of its project fails in the
  imported copy. Import preserves meaning where the two projects agree on the credentials the package
  names (`ImportPreservesMeaning`). In a fresh project, which has none, a workflow that hands nothing
  off ends like the original, up to the texts of errors, if and only if the original run gets past no
  step that names a credential its project has (`FreshImportAlikeExactly`).
- An export that hands off to a workflow of another project, or that holds a case id of whitespace
  only, cannot be imported again, and nothing refuses such a workflow or case when it is created.
- Each export and import reverses the order of the datasets.
- `list_approvals` reads the clock twice: an approval that expires in between is shown as pending
  under the filter for expired ones.
- `replay` starts a workflow under a run of the same workflow, so a chain of parents can repeat a
  workflow; chains of handoffs below a started run cannot.
- A failed import keeps the project and the workflows created before the failure.

## Model

| member | source | states |
|---|---|---|
| RunRefinement.InterruptionsDoNotMatter | src/agentops/service.py:290-407 | for every history of submissions, claims, pauses, decisions, sweeps, crashes, recoveries and racing cancels, a run that rests has the status, output, reason, spans and project memory of one uninterrupted fold over its steps and verdicts; its spans are always a prefix of that fold's, and the error column of a completed or waiting run is empty exactly if no cancel was overwritten |
| RunRefinement.EveryHistoryIsWellFormed | src/agentops/service.py:290-460 | in every reachable state spans are contiguous and chained, only the last may be open or failed, at most one executor is alive, approvals have distinct steps, and a completed run has one completed span per step |
| RunRefinement.HistoryOnlyGrows | src/agentops/service.py:290-460 | settled approvals and recorded verdicts survive every later action |
| RunRefinement.TerminalIsFinalExactly | src/agentops/service.py:409-426 | after any history that ends in a terminal run, no later history rewrites the run if and only if no cancel request (on a run not yet cancelled) and no executor is between its check and its write |
| RunRefinement.TerminalRewrittenExactly | src/agentops/service.py:365-426 | an action rewrites a terminal run if and only if it is the write of a cancel request whose check is out of date, or the write of an executor that passed its check earlier |
| RunRefinement.SettledIsFinal | src/agentops/service.py:409-426 | where nobody is between a check and a write, a terminal run stays as it is for good |
| RunRefinement.CancelStandsExactlyWhenInterruptible | src/agentops/service.py:409-419 | a cancel stands through every later history if and only if it commits while no executor is between a check and its write |
| RunRefinement.CompletedRunRewritten | src/agentops/service.py:410-419 | every run whose fold completes has a schedule in which it completes and is then rewritten as cancelled |
| RunRefinement.CancelledRunCompletes | src/agentops/service.py:292-295 | and one in which a cancel commits between the first status check and its write, and the run completes all the same, with the cancel in its error column only |
| RunRefinement.ApprovalsAreSingleUse | src/agentops/service.py:893-958 | once a decision counted, every later decision on that step, by anyone at any time, is refused as already decided |
| RunRefinement.LateDecisionStrandsRun | src/agentops/service.py:911-919 | after a decision on an expired approval the run's row stays as it is through every history without a cancel, and a cancel cancels it |
| RunRefinement.WaitingRunLeavesExactlyWhenUndecided | src/agentops/service.py:904-957 | a waiting run can leave that state without a cancel if and only if nobody decided its approval too late |
| RunRefinement.DecisionCountsExactlyInTime | src/agentops/service.py:911-957 | a decision on a pending approval, by anyone, leaves the run able to go on if and only if the approval is not due at that time |
| RunRefinement.TornRunsNeverRest | src/agentops/service.py:383-391 | after a crash between span insert and run update no history brings the run to rest, and its spans never change |
| RunRefinement.RecoverableExactlyWhenSlotFree | src/agentops/service.py:104-112 | a queued or running run without an executor can be brought to rest if and only if it has no span yet for the step its row names |
| RunRefinement.RecoverableExactlyWhenNotTorn | src/agentops/service.py:104-112 | the same over histories: if and only if no crash separated a span from the update of its run |
| RunRefinement.CrashTears | src/agentops/service.py:383-391 | a history for every run whose first step calls a tool: a crash after the span insert leaves it running, without an executor and with the slot of its step taken |
| RunRefinement.RecoverySafeExactlyWithoutExecutors | src/agentops/service.py:104-112 | recovery keeps the run invariant, and with a claim leaves at most one executor, if and only if no executor was running the run |
| RunRefinement.ExecutorFinishes | src/agentops/service.py:298-396 | left alone, an executor brings its run to rest |
| RunRefinement.FoldExtends | src/agentops/service.py:290-398 | from any step on and whatever the verdicts, the fold keeps the spans it has and only appends |
| RunRefinement.FoldCompletesThroughEveryStep | src/agentops/service.py:392-396 | a fold that completes has a completed span for every step, and its output is the last one's (the input of a run without steps) |
| RunRefinement.ApplyKeepsFate | src/agentops/service.py:290-460 | every action that neither tears the run nor leaves it cancelled with no executor keeps what the run will end in |
| RunTrace.ResultExplainedExactly | src/agentops/service.py:290-460 | a result is that of the uninterrupted run if and only if each span follows from its step (name, role and budget, the value of the span before it, the outcome of the attempt at which the step's retries end, or the verdict on its approval), and status, output and reason follow from the last span |
| RunTrace.RunsAreExplained | src/agentops/service.py:290-460 | so the record of every run that rests is accounted for by its steps, whatever happened to it |
| RunTrace.StartsAreExplained | src/agentops/service.py:224-398 | and so is that of every run that is started and hands nothing off |
| RunTrace.StepGivesExactly | src/agentops/service.py:329-364 | a step gives an outcome if and only if some attempt gives it that is the first or within both five and the step's retries, all attempts before it fail, and it succeeds or no further one is allowed |
| RunTrace.OneStepRun | src/agentops/service.py:224-396 | a started workflow of one tool step completes with the output of the first such attempt that succeeds, in its row and in its one span, or fails with the error of the last one |
| RunProtocol.ApplyKeepsInv | src/agentops/service.py:290-460 | every action of executors, workers, approvers, sweep, cancel, crash and recovery keeps the run invariant |
| RunProtocol.ReachableInv | src/agentops/service.py:290-460 | so the invariant holds after every sequence of actions |
| RunProtocol.PendingImpliesWaiting | src/agentops/service.py:428-460 | a pending approval means its run waits at exactly that step with a waiting last span and no executor |
| RunProtocol.SweepEffect | src/agentops/service.py:986-1007 | a sweep expires at most the one pending approval, and rejects its run exactly then |
| RunProtocol.SettledSpans | src/agentops/service.py:936-949 | approving completes exactly the waiting span, with the edited output if there is one, and leaves all earlier spans alone |
| RunProtocol.TornSlotTaken | src/agentops/database.py:57 | after a torn crash the next span violates the unique index |
| RunProtocol.CancelKeepsInv | src/agentops/service.py:413-424 | a cancel keeps the run invariant wherever it commits |
| RunProtocol.CallRepeats | src/agentops/service.py:339-358 | calling a local tool again, as after a crash, gives the same result and memory |
| RunProtocol.SecondEntryFindsNothing | src/agentops/service.py:400-407 | of two queue entries for a queued run the first one starts its executor, and the second one changes nothing but the queue |
| RunProtocol.RecoveryResubmits | src/agentops/service.py:104-112 | after a crash recovery requeues an unfinished run and adds one entry to what the crash left of the queue |
| Runs.LocalCallsRepeat | src/agentops/service.py:551-561 | memory tools are idempotent |
| Runs.Retries | src/agentops/service.py:329 | at most five retries and no more than the step asks for, and fewer than five only if it asks for no more |
| InterpreterFold.ExecutionIsFold | src/agentops/service.py:290-398 | starting a run that hands nothing off gives the result and the project memory of the uninterrupted fold |
| InterpreterFold.LoopIsFold | src/agentops/service.py:298-398 | the step loop computes the fold from any step on |
| InterpreterFold.ExecuteIsFold | src/agentops/service.py:290-398 | executing a queued or resumed run gives the fold from the step its row names, and executing a cancelled one changes nothing |
| InterpreterFold.ApprovalContinues | src/agentops/service.py:893-958 | approving a waiting run and executing it gives the fold with that verdict on the step it waited at |
| InterpreterFold.AttemptsAreLocal | src/agentops/service.py:334-364 | the retry loop of a local tool gives the first success or the last error, and writes memory as one call does |
| Interpreter.StartRun | src/agentops/service.py:224-275 | fails exactly for an unknown workflow, an unknown parent or one of another project; otherwise only appends rows, the first one being the new run |
| Interpreter.Invoke | src/agentops/service.py:543-585 | a tool leaves its own run's row and every other old row alone; new runs are only appended |
| Interpreter.FrameKeepsUnvisited | src/agentops/service.py:587-594 | executing a run does not change which workflows its ancestry has not visited |
| ToolLaws.HandoffGives | src/agentops/service.py:563-585 | a handoff fails for a target that is unknown, of another project or in the ancestry; otherwise it starts a run of the target under its caller, on the step's value and with the caller's role, and gives, if and only if that run completes, its output with the secrets redacted and nothing else changed |
| ToolLaws.MemoryReadGives | src/agentops/service.py:559-562 | a read gives the stored value with the secrets redacted and nothing else changed, or fails if there is none |
| ToolLaws.MemoryWriteGives | src/agentops/service.py:553-558 | a write stores the step's own value or else its input under its key in its project, changes no other entry, and passes its input on |
| ToolLaws.ReadAfterWrite | src/agentops/service.py:553-562 | what one run wrote, every run of the project reads, redacted |
| ToolLaws.BuiltinGives | src/agentops/service.py:494-529 | a computing tool is called with the secret its step names, if any, and fails if the project lacks it |
| ToolLaws.StepIsRetried | src/agentops/service.py:329-364 | any tool, handoffs included, is called until it succeeds, at most as often again as the step's retries say and six times in all, each time on the tables the call before it left |
| ToolLaws.PausedAsAsked | src/agentops/service.py:428-460 | an approval step leaves its run waiting; until the approval expires, if ever, exactly the roles the step names, or else admins and operators, can decide it |
| HandoffBounds.RunsCreatedByOneCall | src/agentops/service.py:543-594 | with W workflows of at most L steps, starting a run creates at most the sum of (6L)^i for i below W runs, counting itself |
| HandoffBounds.StartRunBound | src/agentops/service.py:543-594 | a run with d unvisited workflows creates at most the bound for d |
| HandoffBounds.RunBoundIsGeometric | src/agentops/service.py:543-594 | the bound for d is the sum of (6L)^i for i = 0..d |
| HandoffBounds.InvokeBound | src/agentops/service.py:566-577 | one tool call creates at most the bound for d - 1, because a handoff leaves the ancestry |
| HandoffBounds.AttemptsBound | src/agentops/service.py:334-364 | at most six calls per step add up |
| HandoffTree.HandoffChainsNeverRepeat | src/agentops/service.py:566-577 | in whatever table and under whatever parent a run is started, every run the call creates is below it, and each handoff on the way down visits a workflow new to the chain and to all ancestors |
| HandoffTree.HandoffDepthBounded | src/agentops/service.py:566-577 | so a chain of handoffs is no longer than the number of workflows outside the started run's ancestry |
| HandoffTree.DepthCountsLineage | src/agentops/service.py:587-594 | the depth of a run is the number of runs from it up to its root |
| HandoffTree.ChainAboveRepeatsExactly | src/agentops/service.py:1055-1062 | a run started under a parent repeats a workflow on its chain if and only if the parent's chain does or holds the same workflow |
| HandoffTree.AgentTreeListsDescendantsOnce | src/agentops/service.py:636-654 | the tree of a run lists a run once if the root is it or an ancestor of it, and otherwise not at all |
| AgentOps.Service.StartRun | src/agentops/service.py:224-275 | the in-place method is the interpreter's start |
| AgentOps.Service.EnqueueRun | src/agentops/service.py:271-275 | a queued start adds one queued row and one queue entry |
| AgentOps.Service.Execute | src/agentops/service.py:290-398 | the step loop over the tables is the interpreter's execution |
| AgentOps.Service.RunStep | src/agentops/service.py:298-391 | one turn of the loop is the interpreter's turn |
| AgentOps.Service.TryStep | src/agentops/service.py:334-364 | the retry loop is the interpreter's attempts |
| AgentOps.Service.InvokeTool | src/agentops/service.py:519-585 | llm steps look up the secret they name, memory and handoff tools act on the tables as the interpreter says, and what a handoff and a memory read return holds no secret (`ToolLaws` says what each tool gives) |
| AgentOps.Service.PauseForApproval | src/agentops/service.py:428-460 | inserts the waiting span, then the approval and the waiting run, or nothing if the slot is taken |
| AgentOps.Service.RecordOutcome | src/agentops/service.py:365-391 | a cancelled run gets no span; otherwise the span and the run's row are written together |
| AgentOps.Service.WorkflowAncestry | src/agentops/service.py:587-594 | the upward loop collects exactly the workflows of the run and its ancestors |
| AgentOps.Service.ExecuteQueued | src/agentops/service.py:400-407 | executes a run only if it claimed it from `queued` |
| AgentOps.Service.WorkOnce | src/agentops/service.py:400-407 | working off a run that is no longer queued changes no table; otherwise, of the existing runs, only that one changes |
| AgentOps.Service.DecideApproval | src/agentops/service.py:893-958 | the outcome of a decision, the row it leaves, and execution exactly when it resumed the run |
| AgentOps.Service.CancelRun | src/agentops/service.py:409-426 | cancels exactly non-terminal runs and settles their pending approvals |
| AgentOps.Service.ExpireApprovals | src/agentops/service.py:986-1007 | sweeps every run and counts the approvals that expired |
| AgentOps.Service.ListApprovals | src/agentops/service.py:1009-1053 | lists by derived status, with one clock reading for the status and one for the filter |
| AgentOps.Service.RecoverIncompleteRuns | src/agentops/service.py:104-112 | requeues running runs and submits every incomplete one once |
| AgentOps.ListingIsExact | src/agentops/service.py:1009-1053 | an approval is listed if and only if its status at the second reading passes the filter, under its status at the first |
| AgentOps.ListedUnderOtherStatusExactly | src/agentops/service.py:1028-1035 | an entry shows another status than the filter asked for if and only if its approval expired between the two readings |
| AgentOps.ListingUnaffectedBySweep | src/agentops/service.py:986-1053 | listings now and at every later time are the same before and after a sweep |
| AgentOps.SweepKeepsEffectiveStatus | src/agentops/service.py:1020-1023 | a sweep changes no derived status |
| AgentOps.DecidableExactlyWhenListedPending | src/agentops/service.py:904-919 | a decision passes the status and expiry checks if and only if a listing of pending approvals whose filter is read at that time shows the approval as pending |
| AgentOps.SecondSweepFindsNothing | src/agentops/service.py:986-1007 | a second sweep at the same time expires nothing and changes nothing |
| AgentOps.SweepCountsTheDue | src/agentops/service.py:986-1007 | the reported count is the number of pending approvals whose time has come |
| AgentOps.SweepIsExact | src/agentops/service.py:986-1007 | exactly these expire, exactly their runs are rejected, and nothing else changes |
| AgentOps.IncompleteExactly | src/agentops/service.py:104-112 | what recovery submits are the queued and the running runs, in the order of their ids |
| Json.RedactFixesExactlyCleanValues | src/agentops/security.py:21-29 | a redacted value holds no secret, and redaction changes exactly the values that hold one |
| Json.RedactIdempotent | src/agentops/security.py:21-29 | redacting twice is redacting once |
| Json.RedactionHidesExactlySecrets | src/agentops/security.py:21-29 | two values look alike redacted if and only if they agree outside their secrets |
| Json.SensitiveExactly | src/agentops/security.py:14-24 | a key is sensitive if and only if it spells one of six words in whatever case |
| ImportMeaning.ImportPreservesMeaning | src/agentops/service.py:720-769 | for every validated package, any imported workflow run from equal input, role, budget, memory and credentials ends with the status, output and spans of the original, and so do all child runs, up to ids |
| FreshImport.FreshImportAlikeExactly | src/agentops/service.py:720-769 | imported into a project without secrets, a workflow that hands nothing off ends with the status, output and spans of the original, up to the texts of errors, if and only if the original run completes no step that names a credential its project has |
| FreshImport.FreshCopyAlikeExactly | src/agentops/service.py:1962-1967 | the same for any copy of a local workflow in a project without secrets |
| FreshImport.FoldsAlikeExactly | src/agentops/service.py:519-541 | the same for the two folds, from any step on and for any verdicts |
| FreshImport.FreshImportPreservesMeaning | src/agentops/service.py:720-769 | importing into a project without secrets preserves meaning, handoffs included, for packages that name no credential the original project has |
| FreshImport.MissingCredentialChangesMeaning | src/agentops/service.py:1962-1967 | a workflow that begins with a credential the original project has gets past that step there, and fails with the missing credential in a project that lacks it |
| ImportMeaning.ImportCorresponds | src/agentops/service.py:739-758 | the imported table is the original one under an injective renaming that handoffs respect |
| ImportMeaning.IdMapExact | src/agentops/service.py:731-738 | each source id maps to the row created for its workflow |
| ImportMeaning.IdMapKeys | src/agentops/service.py:731-738 | the map's keys are exactly the source ids, and its values are new rows |
| ImportMeaning.IdMapInjective | src/agentops/service.py:731-738 | no two source ids share a new id |
| ImportMeaning.RemapSucceedsExactly | src/agentops/service.py:745-747 | the remap succeeds if and only if every handoff target is a source id, which validation guarantees |
| ProjectImport.RefusedExactly | src/agentops/schemas.py:230-251 | the validator refuses a package for four reasons and no other, in this order: two datasets have one name; two workflows have one source id; a step hands off and some workflow has no source id; a step hands off to what is no workflow's source id |
| ImportMeaning.ImportAccepted | src/agentops/service.py:720-769 | an accepted package (`RefusedExactly`) fails to import exactly when its title, the given name or else the package's own, is taken or a dataset repeats a case id; otherwise it adds one project of that title |
| ImportMeaning.ExportLists | src/agentops/service.py:698-714 | an export lists exactly the project's workflows, each with its own id, in order of creation |
| ImportMeaning.ExportAcceptedExactly | src/agentops/schemas.py:145-251 | an export is accepted if and only if no handoff leaves the project and no stored case id is empty |
| ImportMeaning.ImportExport | src/agentops/service.py:698-769 | the import of an accepted export succeeds if and only if its name is free |
| Datasets.StoredCasesReload | src/agentops/service.py:1068-1075 | stored cases load again unchanged unless an id is empty |
| Datasets.NormalizedIsStored | src/agentops/service.py:1068-1075 | loaded cases are stored with stripped, distinct ids |
| Datasets.StoredEmptyExactlyWhenBlank | src/agentops/service.py:1071 | a case is stored under the empty id if and only if its id is given, not empty and whitespace only |
| Text.StripEmptyExactly | src/agentops/service.py:1071 | stripping leaves nothing exactly of a blank string |
| Text.StripSkips | src/agentops/service.py:1071 | what stands between whitespace is what stripping leaves |
| Text.StripDrops | src/agentops/service.py:1071 | stripping drops whitespace from the two ends and nothing else |
| Datasets.DefaultIdText | src/agentops/service.py:1071 | a case without an id, or with an empty one, is named by its position, from `case-1` on |
| ImportMeaning.VersionsAreRanks | src/agentops/service.py:165-168 | imported versions count the workflows of one name from 1 |
| ImportMeaning.ImportThenExport | src/agentops/service.py:698-769 | exporting an imported project gives back the workflows under the new ids with versions as ranks, and the datasets in reverse order with normalized case ids |
| ImportMeaning.SecondRoundTripRestoresOrder | src/agentops/service.py:698-769 | a second round trip restores the order of the datasets and changes no case id any more |
| ImportMeaning.ExportUndoesImport | src/agentops/service.py:698-758 | for the first n workflows of a package, exporting the table they were imported into gives them back |
| ImportMeaning.CopyPreservesMeaning | src/agentops/service.py:698-769 | if no handoff leaves a project, its export passes the validator and every workflow of the imported copy ends like the original, child runs included, up to ids, where the two projects agree on the credentials |
| ProjectImport.Catalog.ImportProject | src/agentops/service.py:720-769 | success and each failure exactly, and the tables after each: a missing target leaves the workflows before it remapped, a faulty dataset the datasets before it created |
| ProjectImport.Catalog.RemapSteps | src/agentops/service.py:740-751 | renames every handoff target, or reports one that is missing |
| ProjectImport.Catalog.CreateWorkflow | src/agentops/service.py:160-175 | appends one row with the stripped name and the next version of the name as given, or fails exactly for an unknown project or if the unique index already has that row |
| ProjectImport.StrippedNamesNeverClash | src/agentops/service.py:165-172 | a name without outer whitespace never clashes |
| ProjectImport.NextVersionIsAbove | src/agentops/service.py:165-168 | the next version is above all of that name in the project, and 1 or one more than some |
| ProjectImport.FaultlessExactly | src/agentops/service.py:1068-1084 | the datasets of a package load if and only if no dataset repeats a case id and no name is repeated |
| ProjectImport.Catalog.CreateDataset | src/agentops/service.py:1064-1085 | fails exactly for an unknown project, a repeated case id or a taken name |
| ProjectImport.SourceIdsComplete | src/agentops/schemas.py:235-247 | counting source ids tells whether every workflow has one |
| ProjectImport.DistinctSources | src/agentops/schemas.py:238-239 | distinct source ids are distinct workflow by workflow |
| Renaming.StartRunSame | src/agentops/service.py:224-275 | starting corresponding workflows in corresponding worlds, credentials included, ends in corresponding worlds |
| Renaming.RunStepsSame | src/agentops/service.py:290-398 | the step loop keeps two worlds alike up to ids |
| Renaming.InvokeSame | src/agentops/service.py:543-585 | so does every tool, memory and handoff included |
| Renaming.SameAncestry | src/agentops/service.py:587-594 | a target is in the ancestry on one side exactly when its new id is on the other |
| Datasets.NormalizeCases | src/agentops/service.py:1068-1075 | succeeds exactly when the assigned ids are distinct, and names a duplicate otherwise |
| Datasets.DefaultIdsDistinct | src/agentops/service.py:1071 | default ids of different positions differ |
| OutboxProtocol.DeliveryIsExclusive | src/agentops/service.py:1641-1655 | with timely holders, in every interleaving at most one worker is between claim and finalise |
| OutboxProtocol.OneHolderAtATime | src/agentops/service.py:1641-1751 | from every exclusive state, exclusion lasts and delivered and dead rows never change |
| OutboxProtocol.NeverMoreThanSixAttempts | src/agentops/service.py:1730-1751 | in every interleaving from the enqueued row, timely or not, attempts never exceed six |
| OutboxProtocol.AttemptsBounded | src/agentops/service.py:1730-1751 | the bound as an invariant of every interleaving |
| OutboxProtocol.SecondClaimSucceedsExactlyWhenHolderLate | src/agentops/service.py:1641-1655 | a claim beside a live holder succeeds if and only if the holder's lease is over |
| OutboxProtocol.LateHolderReopensDelivered | src/agentops/service.py:1741-1751 | then the late holder's update can take a delivered row back to pending |
| OutboxProtocol.SixTriesWithBackoff | src/agentops/service.py:1619-1751 | one crash-free thread ends a row within six tries, attempts count the tries, the sixth starts at least 760 seconds after the first |
| OutboxProtocol.TriesFrom | src/agentops/service.py:1730-1751 | the same from any number of attempts, and only the last try can have succeeded |
| OutboxProtocol.GapsOfSchedule | src/agentops/service.py:1730-1751 | between two tries lies the delay that belongs to the attempts so far |
| Outbox.KeyInjective | src/agentops/service.py:1603-1609 | the key determines event, run and destination |
| Outbox.OneRowPerTriple | src/agentops/database.py:192 | with unique keys there is at most one row per event, run and destination |
| Outbox.IgnoredExactlyWhenPresent | src/agentops/service.py:1657-1677 | an insert is ignored if and only if a row for the same event, run and destination exists |
| Outbox.EnqueueKeepsKeys | src/agentops/service.py:1657-1677 | enqueueing keeps all old rows and the uniqueness of keys |
| Outbox.EnqueueReachesAll | src/agentops/service.py:1588-1609 | every recipient of a dispatch has a row |
| Outbox.DispatchTwiceIsOnce | src/agentops/service.py:1588-1609 | a repeated dispatch to the same recipients changes nothing |
| Outbox.RecipientsExactly | src/agentops/service.py:1588-1609 | a dispatch addresses exactly the enabled webhooks that subscribe to the event and the configured channels |
| Outbox.DispatchExactly | src/agentops/service.py:1588-1677 | a dispatch keeps all rows, adds only rows that are pending at once and wanted, and leaves every wanted destination with a row |
| Outbox.DueAreClaimable | src/agentops/service.py:1627-1655 | due rows are exactly those listed, and each can be claimed |
| Outbox.Table.Enqueue | src/agentops/service.py:1657-1677 | inserts unless the key is present |
| Outbox.Table.Dispatch | src/agentops/service.py:1588-1609 | enqueues for the enabled webhooks that want the event, then Slack, then email |
| Outbox.Table.DueOutbox | src/agentops/service.py:1627-1639 | in id order exactly the pending rows whose time has come and the rows claimed at least 300 seconds ago; rows are left out only when the limit is reached with earlier ones |
| Outbox.Table.WorkOutbox | src/agentops/service.py:1619-1625 | one round of the worker loop delivers each row handed out once and leaves the others alone |
| Outbox.LoopFollowsSchedule | src/agentops/service.py:1619-1751 | however often the loop comes round, its tries on a row that is not claimed each start when the row is pending and its delay is over, and the row is what they make of it |
| Outbox.LoopTriesSixTimes | src/agentops/service.py:1619-1751 | so the loop tries an enqueued row at most six times, at least 2, 8, 30, 120 and 600 seconds apart, the sixth time at least 760 seconds after the first, and the row is pending as long as fewer than six tries all failed |
| Outbox.Table.Claim | src/agentops/service.py:1641-1655 | claims exactly pending rows and rows whose lease is over |
| Outbox.Table.Deliver | src/agentops/service.py:1679-1751 | one delivery alone on its row is one try of the protocol |
| Timestamps.StringOrderIsTimeOrder | src/agentops/service.py:41-42 | `isoformat` strings order like the instants, and are equal only for equal instants, although whole seconds drop the fraction |
| Timestamps.StringOrderIsFieldOrder | src/agentops/service.py:41-42 | string order is the order of the calendar fields |
| Timestamps.DueExactly | src/agentops/service.py:1630-1636 | comparing a stored time with `<=` as a string is comparing times |
| Timestamps.TimeAdvances | src/agentops/service.py:41-42 | within a month, instants are as far apart as their days and clocks say |
| RateLimiter.Limiter.Admit | src/agentops/main.py:125-135 | a request is accepted if and only if fewer than 240 accepted ones of its actor lie in the last 60 seconds of the full history, and no deque exceeds 240 |
| RateLimiter.WindowHoldsAtMostLimit | src/agentops/main.py:125-135 | every closed window of 60 seconds holds at most 240 accepted requests |
| RateLimiter.PrunedCount | src/agentops/main.py:128-130 | after pruning, the deque's length is the number of accepted requests in the window |
| RateLimiter.Decide | src/agentops/main.py:128-135 | pruning and accepting keep the deque a suffix of the history that misses only what is out of the window |
| MockProvider.ChunksRebuildTextExactly | src/agentops/providers.py:294-298 | the chunks join to the text if and only if it does not start with whitespace or is blank |
| MockProvider.ChunkCountIsWordCount | src/agentops/providers.py:290-298 | the number of chunks is the word count if and only if the text is not blank |
| MockProvider.AnswersDoNotStartWithSpace | src/agentops/providers.py:89-115 | no answer starts with whitespace, and none is blank unless empty |
| MockProvider.ChunksAreWordsAndGaps | src/agentops/providers.py:290-298 | each chunk is the word at its position and the whitespace behind it |
| MockProvider.AnswerNamesSubject | src/agentops/providers.py:107-115 | the synthetic answer is in one of four tones, chosen by the fingerprint |
| MockProvider.SubjectExactly | src/agentops/providers.py:109 | and names the first eight words of the prompt, or "the request" if there are none |
| MockProvider.ScriptsArePinned | src/agentops/providers.py:98-106 | a script's content, stripped, is the answer or the error |
| MockProvider.GenerateMock | src/agentops/providers.py:264-299 | published chunks join to the returned answer, and for a non-empty answer their number is the reported output tokens |
| MockProvider.Stream | src/agentops/providers.py:290-299 | the chunk loop publishes exactly the chunks, in order, and reports the word count |
| Streaming.StreamRequest | src/agentops/providers.py:325-387 | at most retries + 1 requests; only silent attempts are retried; the published chunks are those of the last attempt, whose join is the returned text |
| Streaming.PublishedOverAllAttempts | src/agentops/providers.py:325-387 | what all attempts published together is what the last one published |
| Streaming.ReadStream | src/agentops/providers.py:349-369 | the loop over lines publishes each non-empty piece until the end marker, a malformed event or a failure |
| Streaming.PlayExactly | src/agentops/providers.py:349-369 | what an attempt publishes are the non-empty pieces before the first line that ends the stream, and that line decides the outcome, or else the connection |
| Streaming.EventLine | src/agentops/providers.py:350-358 | a `data:` line, whatever whitespace it has, is the end marker or an event |
| Streaming.OtherLine | src/agentops/providers.py:350-353 | every other line of such a stream is skipped |
| Streaming.Request | src/agentops/providers.py:301-323 | retries exactly while the error is retryable and attempts are left |
| Streaming.BackoffDelay | src/agentops/providers.py:47-60 | no wait is longer than 30 seconds |
| Streaming.BackoffTable | src/agentops/providers.py:47-60 | a given delay is kept to within 30 seconds, otherwise the delays are 1, 2, 4 and then 8 seconds |
| Idempotency.OneRunPerKey | src/agentops/service.py:224-288 | in every interleaving, calls with one workflow and key that return give the same run, the only one with that key, launched once when its creator has returned |
| Idempotency.StepKeepsInv | src/agentops/migrations.py:144-153 | every transaction of every caller keeps the partial unique index and the callers' claims |
| Idempotency.CallsTerminate | src/agentops/service.py:224-275 | a call ends within four transactions of its own |
| Idempotency.EmptyKeyRaisesExactlyWhenTaken | src/agentops/service.py:236-270 | running alone, a direct call raises if and only if its key is empty and taken |
| Idempotency.CallAlone | src/agentops/service.py:224-275 | a call without races adds no run under a key that is taken, and returns that run or raises for the empty key; otherwise it adds one run, launches it once and returns it |
| Paging.FollowCursor | src/agentops/service.py:1980-1992 | following the cursor visits every row visible at the first request once, newest first, however the table grows |
| Paging.NextPageContinues | src/agentops/service.py:656-696 | below the last id of a page lies exactly what the page left out |
| Paging.AppendedRowsUnseen | src/agentops/service.py:656-696 | rows appended later never show below a cursor |
| Paging.NewestIsExact | src/agentops/service.py:656-696 | a selection lists exactly the visible rows below the cursor, in descending order |
| Paging.PageIsExact | src/agentops/service.py:656-696 | a page is as much of that list as the limit allows |
| Evaluation.P95IsThePercentile | src/agentops/service.py:1280-1281 | more than 95 % of the samples are at most the chosen one, at least n - floor(95n/100) are at least it, and the `min` never bites |
| Evaluation.P95IgnoresOrder | src/agentops/service.py:1388-1392 | the percentile depends only on the multiset of samples |
| Evaluation.SortedUnique | src/agentops/service.py:1280 | a multiset has one sorted arrangement |
| Evaluation.GatePassesExactlyWhenMet | src/agentops/service.py:1271-1292 | the gate passes if and only if every threshold that is set is met, and gives a reason for each that is not |
| Evaluation.LooseningKeepsPass | src/agentops/service.py:1271-1292 | loosening or dropping thresholds never turns a pass into a failure |
| Evaluation.GateIgnoresOrder | src/agentops/service.py:1271-1292 | verdict and reasons do not depend on the order of the results |
| Evaluation.GateJudgesTheRuns | src/agentops/service.py:1223-1292 | the gate of a job has a verdict if and only if a case was run and a threshold is set, and passes if and only if the passing runs are at least the minimum's share of the cases and the runs' costs and durations keep within the limits |
| Evaluation.EvaluationRow.Cancel | src/agentops/service.py:1245-1260 | cancels exactly queued and running evaluations |
| Evaluation.EvaluationRow.RunJob | src/agentops/service.py:1187-1243 | under any cancel timing the results are the in-order prefix of the dataset up to the first look that finds a cancel, all of it when completed, with matching gate; every result has its case's id and the verdict, duration and cost of running that very case, and `passed` counts the cases whose runs passed; a cancel after the last look is overwritten |
| EvaluationDiff.CompareEvaluations | src/agentops/service.py:1342-1406 | refuses different datasets, and otherwise returns the sorted rows and their six counts |
| EvaluationDiff.SortIsStable | src/agentops/service.py:1383 | the rows are a permutation in severity order that keeps each transition's rows in their original order |
| EvaluationDiff.StableSortUnique | src/agentops/service.py:1383 | and nothing else satisfies that |
| EvaluationDiff.UnionIdsMember | src/agentops/service.py:1371 | the compared ids are those of either side |
| EvaluationDiff.UnionIdsDistinct | src/agentops/service.py:1371 | each of them once |
| EvaluationDiff.UnionIdsInOrder | src/agentops/service.py:1371 | the left side's cases in order, then in order the cases only the right side has |
| EvaluationDiff.RowSays | src/agentops/service.py:1359-1382 | each row shows the two results of its case, if there are, and the transition says exactly how they differ |
| EvaluationDiff.EveryCaseHasARow | src/agentops/service.py:1371-1382 | every case of either side has a row |
| EvaluationDiff.ReportOrder | src/agentops/service.py:1350-1383 | regressed rows come first, then fixed, removed, added, still failing and still passing ones |
| EvaluationDiff.CountsAreClassSizes | src/agentops/service.py:1384 | each count is the number of ids in that transition |
| EvaluationDiff.CountsSumToUnion | src/agentops/service.py:1371-1384 | the six counts sum to the number of ids on either side |
| EvaluationDiff.SwappingSidesSwapsCounts | src/agentops/service.py:1359-1384 | swapping the sides swaps regressed with fixed and added with removed, and nothing else |
| EvaluationDiff.PassesAreConserved | src/agentops/service.py:1342-1406 | passes differ by fixed minus regressed, plus passing cases only one side has |
| EvaluationDiff.CompletedEvaluationsDiffer | src/agentops/service.py:1342-1406 | two completed evaluations of one dataset add and remove nothing and differ in passes by fixed minus regressed |
| EvaluationDiff.EvaluationIdsDistinct | src/agentops/service.py:1068-1075 | the results of any evaluation have distinct case ids |

## Left out

- Routes, middleware other than the limiter, the WebSocket feed and the dashboard: plumbing and user interface.
- SQL text, dialects, connections and migrations: tables are sequences with the unique indexes of database.py and migrations.py; statements that lock or retry are not modelled.
- Network sends, DNS checks, SMTP, signatures, encryption and token hashing: a send is given by its outcome.
- Thread pools, tool timeouts, sleeps, JSON-schema and regular-expression matchers, model judging: library behaviour.
- Rounding of durations and costs, and the pass-rate, cost and latency deltas of a comparison: differences of two numbers the model already has.
- Schedules, templates, demo scenarios, backup scripts, alerts, statistics, traces for other systems.
- Tool, duration, token and cost columns of spans, the delivery history of webhooks, the contents of agent events, prompts, notes and time columns that nothing reads back.
- `escalate_approval`: it changes a level and a note only.
- A step whose `allowed_roles` is an explicit null: the source raises outside the retry loop.
- A listener that raises inside `on_chunk`, and the scheme check of provider URLs.
- A workflow or dataset deleted while an evaluation job runs: the job then raises and the row keeps its status.
- Evaluation.EvaluationRow.RunJob: takes every case to have an outcome; a matcher that raises, as a judge's provider error does, ends the source's job and the row keeps its status.
- AgentOps.Service.ListApprovals: lists in the order of runs and approvals, where the source sorts newest first, and without the filter by project.
- Interpreter.StartRun, and AgentOps.Service.StartRun with it: start without an idempotency key; the module Idempotency has the keys.
- FreshImport.FreshImportAlikeExactly: is about workflows that hand nothing off; for those that do, `FreshImportPreservesMeaning` gives one direction.
- The format tag and the size limits of a package, and the limits of a step's settings; an unknown tag is refused by both the schema and the import.
- ProjectImport.Catalog.ImportProject: takes packages as the schema types parse them, with stripped workflow names, because the route parses every package before importing it.
- ImportMeaning.ExportAcceptedExactly: leaves out the size limits.
- Rotation and encryption of secrets, and the audit row each use writes.
- Deleting projects and the cascade to their rows.
- `list_workflows` orders by creation time and `agent_tree` lists children by start time; the model takes both in the order of ids.
- ImportMeaning.ImportPreservesMeaning: compares error texts only up to the id of a child run, because the text names it.
- Streaming.StreamRequest: does not wait between attempts; `_backoff_delay` is modelled with `Request` only.
- RunRefinement.InterruptionsDoNotMatter: what a handoff returns is part of the oracle there, so a handoff that is executed again after a crash is taken to give the same result and to leave the project memory alone, and no other run writes that memory meanwhile; what handoffs do is in the interpreter's results.
- Idempotency.OneRunPerKey: runs are not deleted while calls race.
- Paging.FollowCursor: rows are appended with increasing ids and none is deleted between pages.
