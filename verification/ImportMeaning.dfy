/**
  What a validated package promises: the id map is injective, the remap never
  fails, and every imported workflow behaves as the original one.
  */
module ImportMeaning {
  import opened Prelude
  import opened Json
  import opened Runs
  import opened Text
  import opened Datasets
  import opened Renaming
  import opened ProjectImport
  import I = Interpreter

  /******* The id map *******/

  lemma {:induction false} IdMapExact(workflows: seq<PackagedWorkflow>, base: nat, n: nat, i: nat)
    requires Distinct(SourceIds(workflows)) && i < n <= |workflows| && workflows[i].sourceId.Some?
    ensures workflows[i].sourceId.value in IdMap(workflows, base, n)
    ensures IdMap(workflows, base, n)[workflows[i].sourceId.value] == base + i
  {
    if i < n - 1 {
      IdMapExact(workflows, base, n - 1, i);
      if workflows[n - 1].sourceId.Some? {
        DistinctSources(workflows, i, n - 1);
      }
    }
  }

  lemma {:induction false} IdMapRange(workflows: seq<PackagedWorkflow>, base: nat, n: nat)
    requires n <= |workflows|
    ensures forall s :: s in IdMap(workflows, base, n) <==> exists i | 0 <= i < n :: workflows[i].sourceId == Some(s)
    ensures forall s | s in IdMap(workflows, base, n) :: base <= IdMap(workflows, base, n)[s] < base + n
  {
    if n > 0 {
      IdMapRange(workflows, base, n - 1);
    }
  }

  /** The keys are exactly the source ids, the values new rows. */
  lemma {:induction false} IdMapKeys(workflows: seq<PackagedWorkflow>, base: nat)
    ensures forall s :: s in IdMap(workflows, base, |workflows|) <==> s in SourceIds(workflows)
    ensures forall s | s in IdMap(workflows, base, |workflows|) :: base <= IdMap(workflows, base, |workflows|)[s] < base + |workflows|
  {
    IdMapRange(workflows, base, |workflows|);
    SourceIdsComplete(workflows);
  }

  /** No two source ids share a new id. */
  lemma {:induction false} IdMapInjective(workflows: seq<PackagedWorkflow>, base: nat)
    requires Distinct(SourceIds(workflows))
    ensures Injective(IdMap(workflows, base, |workflows|))
  {
    var ids := IdMap(workflows, base, |workflows|);
    IdMapRange(workflows, base, |workflows|);
    forall a, b | a in ids && b in ids && ids[a] == ids[b]
      ensures a == b
    {
      var i :| 0 <= i < |workflows| && workflows[i].sourceId == Some(a);
      var j :| 0 <= j < |workflows| && workflows[j].sourceId == Some(b);
      IdMapExact(workflows, base, |workflows|, i);
      IdMapExact(workflows, base, |workflows|, j);
    }
  }

  /** The remap succeeds exactly for packages whose targets are all source ids;
      the validator accepts no other. */
  lemma {:induction false} RemapSucceedsExactly(p: Package, base: nat)
    ensures AllTargetsMapped(p.workflows, IdMap(p.workflows, base, |p.workflows|))
            <==> forall t | t in HandoffTargets(p.workflows) :: t in SourceIds(p.workflows)
    ensures Validate(p) == None ==> AllTargetsMapped(p.workflows, IdMap(p.workflows, base, |p.workflows|))
  {
    var ids := IdMap(p.workflows, base, |p.workflows|);
    IdMapKeys(p.workflows, base);
    if AllTargetsMapped(p.workflows, ids) {
      forall t | t in HandoffTargets(p.workflows)
        ensures t in SourceIds(p.workflows)
      {
        var i, j :| 0 <= i < |p.workflows| && 0 <= j < |p.workflows[i].steps| && p.workflows[i].steps[j].tool.Handoff?
                    && p.workflows[i].steps[j].tool.target == t;
        assert TargetsIn(p.workflows[i].steps, ids.Keys);
      }
    }
    if forall t | t in HandoffTargets(p.workflows) :: t in SourceIds(p.workflows) {
      forall i | 0 <= i < |p.workflows|
        ensures TargetsIn(p.workflows[i].steps, ids.Keys)
      {
        forall j | 0 <= j < |p.workflows[i].steps| && p.workflows[i].steps[j].tool.Handoff?
          ensures p.workflows[i].steps[j].tool.target in ids
        { assert p.workflows[i].steps[j].tool.target in HandoffTargets(p.workflows); }
      }
    }
  }

  /** For an accepted package `import_project` fails for two reasons only: the name
      is taken, or some dataset repeats a case id. */
  method ImportAccepted(catalog: Catalog, p: Package, name: Option<string>) returns (result: Result<Imported, ImportError>)
    requires Accepted(p)
    requires forall d | 0 <= d < |catalog.datasets| :: catalog.datasets[d].project < |catalog.projects|
    modifies catalog
    ensures var title := if name.Some? && name.value != "" then name.value else p.name;
      && (result == Failure(NameTaken) <==> exists i | 0 <= i < |old(catalog.projects)| :: old(catalog.projects)[i].name == title)
      && (result.Success? ==> catalog.projects == old(catalog.projects) + [Project(title, p.description)])
    ensures result == Failure(DuplicateCaseId) <==> result != Failure(NameTaken) && !CasesImportable(p.datasets)
    ensures result.Failure? ==> result.error in {NameTaken, DuplicateCaseId}
    ensures result.Success? ==>
      && catalog.workflows == ImportedTable(old(catalog.workflows), |old(catalog.projects)|, p.workflows)
      && catalog.datasets == old(catalog.datasets) + ImportedDatasets(|old(catalog.projects)|, p.datasets)
  {
    RemapSucceedsExactly(p, |catalog.workflows|);
    MappableExactly(p.workflows, IdMap(p.workflows, |catalog.workflows|, |p.workflows|), 0);
    AcceptedNames(p);
    FaultlessExactly(p.datasets);
    assert p.datasets[..|p.datasets|] == p.datasets;
    result := catalog.ImportProject(p, name);
  }

  lemma AcceptedNames(p: Package)
    requires Validate(p) == None
    ensures DistinctNames(p.datasets)
    ensures forall d | 0 <= d < |p.datasets| :: FaultAt(p.datasets, d) != Some(DatasetNameTaken)
    ensures forall d | 0 <= d < |p.datasets| && FaultAt(p.datasets, d).Some? :: FaultAt(p.datasets, d) == Some(DuplicateCaseId)
  {
    forall i, j | 0 <= i < j < |p.datasets|
      ensures p.datasets[i].name != p.datasets[j].name
    { assert DatasetNames(p)[i] != DatasetNames(p)[j]; }
  }

  /******* Meaning *******/

  /** The workflows table as the interpreter sees it. */
  function WorkflowsOf(rows: seq<WorkflowRow>): (m: map<int, I.Workflow>)
    ensures forall id :: id in m <==> 0 <= id < |rows|
    ensures forall id | 0 <= id < |rows| :: m[id] == I.Workflow(rows[id].project, rows[id].steps)
  {
    map id | 0 <= id < |rows| :: I.Workflow(rows[id].project, rows[id].steps)
  }

  /** Original ids of a package's workflows: the source ids, and for workflows that
      have none any other distinct ids. */
  ghost predicate Originals(p: Package, orig: seq<int>) {
    && |orig| == |p.workflows| && Distinct(orig)
    && forall i | 0 <= i < |orig| && p.workflows[i].sourceId.Some? :: orig[i] == p.workflows[i].sourceId.value
  }

  function NewIds(orig: seq<int>, base: nat): map<int, int> {
    if orig == [] then map[]
    else NewIds(orig[..|orig| - 1], base)[orig[|orig| - 1] := base + |orig| - 1]
  }

  lemma {:induction false} NewIdsExact(orig: seq<int>, base: nat)
    requires Distinct(orig)
    ensures forall s :: s in NewIds(orig, base) <==> s in orig
    ensures forall i | 0 <= i < |orig| :: orig[i] in NewIds(orig, base) && NewIds(orig, base)[orig[i]] == base + i
  {
    if orig != [] {
      NewIdsExact(orig[..|orig| - 1], base);
      assert orig == orig[..|orig| - 1] + [orig[|orig| - 1]];
    }
  }

  lemma {:induction false} NewIdsInjective(orig: seq<int>, base: nat)
    requires Distinct(orig)
    ensures Injective(NewIds(orig, base))
  {
    NewIdsExact(orig, base);
  }

  /** Source ids and original ids rename every handoff target alike. */
  lemma {:induction false} SameTarget(p: Package, orig: seq<int>, base: nat, t: int)
    requires Validate(p) == None && Originals(p, orig) && t in HandoffTargets(p.workflows)
    ensures t in IdMap(p.workflows, base, |p.workflows|) && t in NewIds(orig, base)
    ensures IdMap(p.workflows, base, |p.workflows|)[t] == NewIds(orig, base)[t]
  {
    SourceIdsComplete(p.workflows);
    var i :| 0 <= i < |p.workflows| && p.workflows[i].sourceId == Some(t);
    IdMapExact(p.workflows, base, |p.workflows|, i);
    NewIdsExact(orig, base);
    assert orig[i] == t;
  }

  lemma {:induction false} SameRenaming(p: Package, orig: seq<int>, base: nat, i: nat)
    requires Validate(p) == None && Originals(p, orig) && i < |p.workflows|
    ensures RenameSteps(p.workflows[i].steps, IdMap(p.workflows, base, |p.workflows|)) == RenameSteps(p.workflows[i].steps, NewIds(orig, base))
    ensures TargetsIn(p.workflows[i].steps, NewIds(orig, base).Keys)
  {
    var steps := p.workflows[i].steps;
    forall j | 0 <= j < |steps| && steps[j].tool.Handoff?
      ensures steps[j].tool.target in NewIds(orig, base)
      ensures RenameStep(steps[j], IdMap(p.workflows, base, |p.workflows|)) == RenameStep(steps[j], NewIds(orig, base))
    {
      assert steps[j].tool.target in HandoffTargets(p.workflows);
      SameTarget(p, orig, base, steps[j].tool.target);
    }
  }

  ghost predicate HoldsPackage(p: Package, orig: seq<int>, project: int, workflows: map<int, I.Workflow>)
    requires |orig| == |p.workflows|
  {
    forall i | 0 <= i < |orig| :: orig[i] in workflows && workflows[orig[i]] == I.Workflow(project, p.workflows[i].steps)
  }

  lemma {:induction false} ImportedRow(p: Package, orig: seq<int>, rows: seq<WorkflowRow>, project: nat, i: nat)
    requires Validate(p) == None && Originals(p, orig) && i < |p.workflows|
    ensures |ImportedTable(rows, project, p.workflows)| == |rows| + |p.workflows|
    ensures var row := ImportedTable(rows, project, p.workflows)[|rows| + i];
      row.project == project && row.steps == RenameSteps(p.workflows[i].steps, NewIds(orig, |rows|))
  {
    var k := |rows| + i;
    var created := CreatedRows(rows, project, p.workflows, |p.workflows|);
    assert created[k].project == project && created[k].steps == p.workflows[i].steps by {
      CreatedRowsHold(rows, project, p.workflows, |p.workflows|);
      assert Holds(created[k], project, p.workflows[k - |rows|]);
    }
    assert RenameSteps(p.workflows[i].steps, IdMap(p.workflows, |rows|, |p.workflows|))
        == RenameSteps(p.workflows[i].steps, NewIds(orig, |rows|)) by {
      SameRenaming(p, orig, |rows|, i);
    }
  }

  lemma {:induction false} ImportedAt(p: Package, orig: seq<int>, rows: seq<WorkflowRow>, project: nat, i: nat)
    requires Validate(p) == None && Originals(p, orig) && i < |p.workflows|
    ensures var right := WorkflowsOf(ImportedTable(rows, project, p.workflows));
      |rows| + i in right
      && right[|rows| + i] == I.Workflow(project, RenameSteps(p.workflows[i].steps, NewIds(orig, |rows|)))
  {
    ImportedRow(p, orig, rows, project, i);
  }

  lemma {:induction false} CorrespondsAt(p: Package, orig: seq<int>, n: Names, left: map<int, I.Workflow>,
                                         rows: seq<WorkflowRow>, right: map<int, I.Workflow>, i: nat, s: int)
    requires Validate(p) == None && Originals(p, orig) && HoldsPackage(p, orig, n.project1, left)
    requires n.ids == NewIds(orig, |rows|) && n.project2 >= 0
    requires right == WorkflowsOf(ImportedTable(rows, n.project2, p.workflows))
    requires i < |orig| && s == orig[i]
    ensures s in left && s in n.ids && n.ids[s] in right
    ensures left[s].project == n.project1 && right[n.ids[s]].project == n.project2
    ensures right[n.ids[s]].steps == RenameSteps(left[s].steps, n.ids)
    ensures TargetsIn(left[s].steps, n.ids.Keys)
  {
    var steps := p.workflows[i].steps;
    assert left[s] == I.Workflow(n.project1, steps);
    assert s in n.ids && n.ids[s] == |rows| + i by {
      NewIdsExact(orig, |rows|);
    }
    assert n.ids[s] in right && right[n.ids[s]] == I.Workflow(n.project2, RenameSteps(steps, n.ids)) by {
      ImportedAt(p, orig, rows, n.project2, i);
    }
    SameRenaming(p, orig, |rows|, i);
  }

  lemma {:induction false} ImportCorresponds(p: Package, orig: seq<int>, n: Names, left: map<int, I.Workflow>,
                                             rows: seq<WorkflowRow>, right: map<int, I.Workflow>)
    requires Validate(p) == None && Originals(p, orig) && HoldsPackage(p, orig, n.project1, left)
    requires n.ids == NewIds(orig, |rows|) && n.project2 >= 0
    requires right == WorkflowsOf(ImportedTable(rows, n.project2, p.workflows))
    ensures Corresponds(n, left, right)
  {
    NewIdsExact(orig, |rows|);
    NewIdsInjective(orig, |rows|);
    forall s | s in n.ids
      ensures s in left && n.ids[s] in right
      ensures left[s].project == n.project1 && right[n.ids[s]].project == n.project2
      ensures right[n.ids[s]].steps == RenameSteps(left[s].steps, n.ids)
      ensures TargetsIn(left[s].steps, n.ids.Keys)
    {
      var i :| 0 <= i < |orig| && orig[i] == s;
      CorrespondsAt(p, orig, n, left, rows, right, i, s);
    }
  }

  /** Two calls of `start_run` ended alike: the runs have equal status, output and
      spans, and so do their child runs and the project memory, up to the ids of
      workflows and runs. */
  ghost predicate EndedAlike(n: Names, b1: nat, b2: nat, end1: (I.World, Result<nat, Error>), end2: (I.World, Result<nat, Error>)) {
    && end1.1 == Success(b1) && end2.1 == Success(b2)
    && SameWorld(n, b1, b2, end1.0, end2.0)
    && b1 < |end1.0.runs| && b2 < |end2.0.runs|
    && end2.0.runs[b2].status == end1.0.runs[b1].status
    && end2.0.runs[b2].output == end1.0.runs[b1].output
    && SameSpans(b1, b2, end1.0.runs[b1].spans, end2.0.runs[b2].spans)
  }

  /** The two projects agree on every credential the package names. */
  ghost predicate AgreeOnCredentials(n: Names, p: Package, s1: Secrets, s2: Secrets) {
    forall i | 0 <= i < |p.workflows| :: SameCredentials(n, p.workflows[i].steps, s1, s2)
  }

  /** Import preserves meaning: from equal input, role, budget, project memory and
      credentials, running the i-th imported workflow ends with the same status,
      output and spans as running the i-th original one, and so do all its child
      runs, up to the ids of workflows and runs. */
  lemma {:induction false} ImportPreservesMeaning(o: Oracle, now: int, p: Package, n: Names, orig: seq<int>,
                                                  rows: seq<WorkflowRow>, left: I.World, right: I.World, i: nat,
                                                  original: int, imported: int, input: Value, maxSteps: int, role: string)
    requires Validate(p) == None && Originals(p, orig) && n.ids == NewIds(orig, |rows|) && n.project2 >= 0
    requires I.Valid(left) && HoldsPackage(p, orig, n.project1, left.workflows)
    requires I.Valid(right) && right.workflows == WorkflowsOf(ImportedTable(rows, n.project2, p.workflows))
    requires SameMemory(n, left.memory, right.memory) && AgreeOnCredentials(n, p, left.secrets, right.secrets)
    requires i < |orig| && original == orig[i] && imported == |rows| + i
    ensures EndedAlike(n, |left.runs|, |right.runs|,
                       I.StartRun(o, now, left, original, input, None, maxSteps, role),
                       I.StartRun(o, now, right, imported, input, None, maxSteps, role))
  {
    assert SameWorld(n, |left.runs|, |right.runs|, left, right) by {
      ImportCorresponds(p, orig, n, left.workflows, rows, right.workflows);
      SecretsCorrespond(p, orig, n, rows, left, right.secrets);
      FreshWorldsSame(n, left, right);
    }
    assert original in n.ids && n.ids[original] == imported by {
      NewIdsExact(orig, |rows|);
    }
    StartedRunsSame(o, now, n, left, right, original, imported, input, maxSteps, role);
  }

  lemma {:induction false} SecretsCorrespond(p: Package, orig: seq<int>, n: Names, rows: seq<WorkflowRow>, left: I.World,
                                             secrets: Secrets)
    requires Originals(p, orig) && n.ids == NewIds(orig, |rows|) && HoldsPackage(p, orig, n.project1, left.workflows)
    requires AgreeOnCredentials(n, p, left.secrets, secrets)
    ensures SameSecrets(n, left.workflows, left.secrets, secrets)
  {
    NewIdsExact(orig, |rows|);
    forall s | s in n.ids && s in left.workflows
      ensures SameCredentials(n, left.workflows[s].steps, left.secrets, secrets)
    {
      var i :| 0 <= i < |orig| && orig[i] == s;
      assert SameCredentials(n, p.workflows[i].steps, left.secrets, secrets);
    }
  }

  lemma FreshWorldsSame(n: Names, left: I.World, right: I.World)
    requires I.Valid(left) && I.Valid(right) && Corresponds(n, left.workflows, right.workflows)
    requires SameMemory(n, left.memory, right.memory) && SameSecrets(n, left.workflows, left.secrets, right.secrets)
    ensures SameWorld(n, |left.runs|, |right.runs|, left, right)
  {
  }

  lemma {:induction false} StartedRunsSame(o: Oracle, now: int, n: Names, left: I.World, right: I.World, workflow: int,
                                           imported: int, input: Value, maxSteps: int, role: string)
    requires SameWorld(n, |left.runs|, |right.runs|, left, right) && workflow in n.ids && imported == n.ids[workflow]
    ensures EndedAlike(n, |left.runs|, |right.runs|,
                       I.StartRun(o, now, left, workflow, input, None, maxSteps, role),
                       I.StartRun(o, now, right, imported, input, None, maxSteps, role))
  {
    var b1, b2 := |left.runs|, |right.runs|;
    StartRunSame(o, now, n, b1, b2, left, right, workflow, input, None, None, maxSteps, role);
    SameSteps(n, b1, b2, I.StartRun(o, now, left, workflow, input, None, maxSteps, role).0,
              I.StartRun(o, now, right, n.ids[workflow], input, None, maxSteps, role).0, 0);
  }

  /******* Export *******/

  function ExportWorkflows(rows: seq<WorkflowRow>, project: nat): seq<PackagedWorkflow> {
    if rows == [] then []
    else
      var id := |rows| - 1;
      ExportWorkflows(rows[..id], project)
      + (if rows[id].project == project
         then [PackagedWorkflow(Some(id), rows[id].name, rows[id].version, rows[id].steps)] else [])
  }

  function ExportDatasets(rows: seq<DatasetRow>, project: nat): seq<PackagedDataset> {
    if rows == [] then []
    else
      var last := rows[|rows| - 1];
      (if last.project == project then [PackagedDataset(last.name, last.cases)] else [])
      + ExportDatasets(rows[..|rows| - 1], project)
  }

  function ExportProject(project: Project, id: nat, workflows: seq<WorkflowRow>, datasets: seq<DatasetRow>): Package {
    Package(project.name, project.description, ExportWorkflows(workflows, id), ExportDatasets(datasets, id))
  }

  lemma {:induction false} ExportListsExactly(rows: seq<WorkflowRow>, project: nat, w: PackagedWorkflow)
    ensures w in ExportWorkflows(rows, project) <==>
              exists id | 0 <= id < |rows| && rows[id].project == project ::
                w == PackagedWorkflow(Some(id), rows[id].name, rows[id].version, rows[id].steps)
  {
    if rows != [] {
      var init := rows[..|rows| - 1];
      ExportListsExactly(init, project, w);
      if id :| 0 <= id < |init| && init[id].project == project
               && w == PackagedWorkflow(Some(id), init[id].name, init[id].version, init[id].steps) {
        assert rows[id] == init[id];
      }
      if id :| 0 <= id < |init| && rows[id].project == project
               && w == PackagedWorkflow(Some(id), rows[id].name, rows[id].version, rows[id].steps) {
        assert rows[id] == init[id];
      }
    }
  }

  lemma {:induction false} ExportAscends(rows: seq<WorkflowRow>, project: nat)
    ensures forall i | 0 <= i < |ExportWorkflows(rows, project)| :: Within(ExportWorkflows(rows, project)[i], |rows|)
    ensures forall i, j | 0 <= i < j < |ExportWorkflows(rows, project)| :: Ordered(ExportWorkflows(rows, project)[i], ExportWorkflows(rows, project)[j])
  {
    if rows != [] {
      ExportAscends(rows[..|rows| - 1], project);
    }
  }

  predicate Within(w: PackagedWorkflow, n: nat) {
    w.sourceId.Some? && 0 <= w.sourceId.value < n
  }

  predicate Ordered(v: PackagedWorkflow, w: PackagedWorkflow) {
    v.sourceId.Some? && w.sourceId.Some? && v.sourceId.value < w.sourceId.value
  }

  /** An export lists exactly the project's workflows, each with its own id, in order. */
  lemma {:induction false} ExportLists(rows: seq<WorkflowRow>, project: nat)
    ensures forall w :: w in ExportWorkflows(rows, project) <==>
              exists id | 0 <= id < |rows| && rows[id].project == project ::
                w == PackagedWorkflow(Some(id), rows[id].name, rows[id].version, rows[id].steps)
    ensures forall i | 0 <= i < |ExportWorkflows(rows, project)| :: Within(ExportWorkflows(rows, project)[i], |rows|)
    ensures forall i, j | 0 <= i < j < |ExportWorkflows(rows, project)| :: Ordered(ExportWorkflows(rows, project)[i], ExportWorkflows(rows, project)[j])
  {
    ExportAscends(rows, project);
    forall w
      ensures w in ExportWorkflows(rows, project) <==>
                exists id | 0 <= id < |rows| && rows[id].project == project ::
                  w == PackagedWorkflow(Some(id), rows[id].name, rows[id].version, rows[id].steps)
    { ExportListsExactly(rows, project, w); }
  }

  lemma {:induction false} AllSourced(workflows: seq<PackagedWorkflow>)
    requires forall i | 0 <= i < |workflows| :: workflows[i].sourceId.Some?
    ensures |SourceIds(workflows)| == |workflows|
    ensures forall i | 0 <= i < |workflows| :: SourceIds(workflows)[i] == workflows[i].sourceId.value
  {
    if workflows != [] {
      AllSourced(workflows[..|workflows| - 1]);
    }
  }

  lemma {:induction false} ExportedSources(rows: seq<WorkflowRow>, project: nat)
    ensures var sources := SourceIds(ExportWorkflows(rows, project));
      && Distinct(sources) && |sources| == |ExportWorkflows(rows, project)|
      && forall t :: t in sources <==> 0 <= t < |rows| && rows[t].project == project
  {
    var ws := ExportWorkflows(rows, project);
    ExportLists(rows, project);
    AllSourced(ws);
    var sources := SourceIds(ws);
    forall i | 0 <= i < |sources|
      ensures 0 <= sources[i] < |rows| && rows[sources[i]].project == project
    { assert ws[i] in ws; }
    forall t | 0 <= t < |rows| && rows[t].project == project
      ensures t in sources
    {
      var w := PackagedWorkflow(Some(t), rows[t].name, rows[t].version, rows[t].steps);
      assert w in ws;
      var i :| 0 <= i < |ws| && ws[i] == w;
      assert sources[i] == t;
    }
  }

  predicate HandsOff(rows: seq<WorkflowRow>, project: nat, w: nat, j: nat, t: int) {
    && w < |rows| && rows[w].project == project && j < |rows[w].steps|
    && rows[w].steps[j].tool.Handoff? && rows[w].steps[j].tool.target == t
  }

  lemma {:induction false} ExportedTargets(rows: seq<WorkflowRow>, project: nat, t: int)
    ensures t in HandoffTargets(ExportWorkflows(rows, project)) <==> exists w: nat, j: nat :: HandsOff(rows, project, w, j, t)
  {
    var ws := ExportWorkflows(rows, project);
    ExportLists(rows, project);
    if t in HandoffTargets(ws) {
      var i, j :| 0 <= i < |ws| && 0 <= j < |ws[i].steps| && ws[i].steps[j].tool.Handoff?
                  && ws[i].steps[j].tool.target == t;
      assert ws[i] in ws;
      var w :| 0 <= w < |rows| && rows[w].project == project
               && ws[i] == PackagedWorkflow(Some(w), rows[w].name, rows[w].version, rows[w].steps);
      assert HandsOff(rows, project, w, j, t);
    }
    if w: nat, j: nat :| HandsOff(rows, project, w, j, t) {
      var packaged := PackagedWorkflow(Some(w), rows[w].name, rows[w].version, rows[w].steps);
      assert packaged in ws;
      var i :| 0 <= i < |ws| && ws[i] == packaged;
      assert ws[i].steps == rows[w].steps;
      assert ws[i].steps[j].tool.target == t;
    }
  }

  /** What the tables of a project hold: stripped workflow names, and per dataset
      distinct stripped case ids, as `create_workflow` and `create_dataset` leave them. */
  ghost predicate Stored(workflows: seq<WorkflowRow>, datasets: seq<DatasetRow>) {
    && (forall i {:trigger Strip(workflows[i].name)} | 0 <= i < |workflows| :: Strip(workflows[i].name) == workflows[i].name)
    && forall d | 0 <= d < |datasets| :: StoredCases(datasets[d].cases)
  }

  /** Some dataset of the project holds a case whose id is empty: one of whitespace only,
      before `create_dataset` stripped it. */
  predicate HasEmptyId(datasets: seq<DatasetRow>, project: nat) {
    exists d | 0 <= d < |datasets| && datasets[d].project == project :: !NoEmptyId(datasets[d].cases)
  }

  /** No handoff leaves the project (nothing checks that when a workflow is created). */
  ghost predicate Closed(workflows: seq<WorkflowRow>, project: nat) {
    forall w: nat, j: nat, t: int | HandsOff(workflows, project, w, j, t) :: 0 <= t < |workflows| && workflows[t].project == project
  }

  /** An exported project is accepted exactly when none of its handoffs leaves the
      project and none of its cases has an empty id. */
  lemma ExportAcceptedExactly(project: Project, id: nat, workflows: seq<WorkflowRow>, datasets: seq<DatasetRow>)
    requires Stored(workflows, datasets) && Distinct(DatasetNames(ExportProject(project, id, workflows, datasets)))
    ensures Accepted(ExportProject(project, id, workflows, datasets)) <==> Closed(workflows, id) && !HasEmptyId(datasets, id)
  {
    var p := ExportProject(project, id, workflows, datasets);
    ExportReferencesExactly(project, id, workflows, datasets);
    ExportedNames(workflows, id);
    ExportedCases(datasets, id);
  }

  lemma ExportReferencesExactly(project: Project, id: nat, workflows: seq<WorkflowRow>, datasets: seq<DatasetRow>)
    requires Distinct(DatasetNames(ExportProject(project, id, workflows, datasets)))
    ensures Validate(ExportProject(project, id, workflows, datasets)) == None <==> Closed(workflows, id)
  {
    var p := ExportProject(project, id, workflows, datasets);
    ExportedSources(workflows, id);
    forall t
      ensures t in HandoffTargets(p.workflows) <==> exists w: nat, j: nat :: HandsOff(workflows, id, w, j, t)
    { ExportedTargets(workflows, id, t); }
    assert Validate(p) == None <==> forall t | t in HandoffTargets(p.workflows) :: t in SourceIds(p.workflows);
    if Validate(p) == None {
      forall w: nat, j: nat, t: int | HandsOff(workflows, id, w, j, t)
        ensures 0 <= t < |workflows| && workflows[t].project == id
      { assert t in HandoffTargets(p.workflows); }
    }
  }

  lemma {:induction false} ExportedNames(workflows: seq<WorkflowRow>, id: nat)
    requires forall i {:trigger Strip(workflows[i].name)} | 0 <= i < |workflows| :: Strip(workflows[i].name) == workflows[i].name
    ensures NamesStripped(ExportWorkflows(workflows, id))
  {
    var ws := ExportWorkflows(workflows, id);
    ExportLists(workflows, id);
    forall i | 0 <= i < |ws|
      ensures Strip(ws[i].name) == ws[i].name
    {
      assert ws[i] in ws;
      var k :| 0 <= k < |workflows| && workflows[k].project == id
               && ws[i] == PackagedWorkflow(Some(k), workflows[k].name, workflows[k].version, workflows[k].steps);
      assert Strip(workflows[k].name) == workflows[k].name;
    }
  }

  lemma {:induction false} ExportedDatasets(datasets: seq<DatasetRow>, id: nat, x: PackagedDataset)
    ensures x in ExportDatasets(datasets, id) <==>
              exists d | 0 <= d < |datasets| && datasets[d].project == id :: x == PackagedDataset(datasets[d].name, datasets[d].cases)
  {
    if datasets != [] {
      var init := datasets[..|datasets| - 1];
      ExportedDatasets(init, id, x);
      if d :| 0 <= d < |init| && init[d].project == id && x == PackagedDataset(init[d].name, init[d].cases) {
        assert datasets[d] == init[d];
      }
      if d :| 0 <= d < |init| && datasets[d].project == id && x == PackagedDataset(datasets[d].name, datasets[d].cases) {
        assert datasets[d] == init[d];
      }
    }
  }

  lemma {:induction false} ExportedCases(datasets: seq<DatasetRow>, id: nat)
    ensures NoEmptyIds(ExportDatasets(datasets, id)) <==> !HasEmptyId(datasets, id)
  {
    var ds := ExportDatasets(datasets, id);
    if NoEmptyIds(ds) {
      forall d | 0 <= d < |datasets| && datasets[d].project == id
        ensures NoEmptyId(datasets[d].cases)
      {
        var x := PackagedDataset(datasets[d].name, datasets[d].cases);
        ExportedDatasets(datasets, id, x);
        var e :| 0 <= e < |ds| && ds[e] == x;
        assert NoEmptyId(ds[e].cases);
      }
    }
    if !HasEmptyId(datasets, id) {
      forall e | 0 <= e < |ds|
        ensures NoEmptyId(ds[e].cases)
      {
        ExportedDatasets(datasets, id, ds[e]);
        assert ds[e] in ds;
      }
    }
  }

  /** The import of an accepted export succeeds exactly if its name is free. */
  method ImportExport(catalog: Catalog, project: Project, id: nat, workflows: seq<WorkflowRow>, datasets: seq<DatasetRow>,
                      name: Option<string>) returns (result: Result<Imported, ImportError>)
    requires Stored(workflows, datasets) && Accepted(ExportProject(project, id, workflows, datasets))
    requires forall d | 0 <= d < |catalog.datasets| :: catalog.datasets[d].project < |catalog.projects|
    modifies catalog
    ensures result.Success? <==> old(catalog.NameFree(Title(ExportProject(project, id, workflows, datasets), name)))
  {
    var p := ExportProject(project, id, workflows, datasets);
    ExportedDatasetsImportable(datasets, id);
    result := ImportAccepted(catalog, p, name);
  }

  lemma {:induction false} ExportedDatasetsImportable(datasets: seq<DatasetRow>, id: nat)
    requires forall d | 0 <= d < |datasets| :: StoredCases(datasets[d].cases)
    requires NoEmptyIds(ExportDatasets(datasets, id))
    ensures CasesImportable(ExportDatasets(datasets, id))
  {
    var ds := ExportDatasets(datasets, id);
    forall e | 0 <= e < |ds|
      ensures Distinct(CaseIds(ds[e].cases))
    {
      ExportedDatasets(datasets, id, ds[e]);
      assert ds[e] in ds && NoEmptyId(ds[e].cases);
      StoredCasesReload(ds[e].cases);
    }
  }

  /** How many of the first `n` workflows bear a name. */
  function CountNamed(workflows: seq<PackagedWorkflow>, name: string, n: nat): nat
    requires n <= |workflows|
  {
    if n == 0 then 0 else CountNamed(workflows, name, n - 1) + (if workflows[n - 1].name == name then 1 else 0)
  }

  lemma {:induction false} VersionsAreRanks(rows: seq<WorkflowRow>, project: nat, workflows: seq<PackagedWorkflow>,
                                            name: string, n: nat)
    requires forall k | 0 <= k < |rows| :: rows[k].project != project
    requires n <= |workflows|
    ensures NextVersion(CreatedRows(rows, project, workflows, n), project, name) == 1 + CountNamed(workflows, name, n)
  {
    if n == 0 {
      NoRowsNoVersion(rows, project, name);
    } else {
      var earlier, all := CreatedRows(rows, project, workflows, n - 1), CreatedRows(rows, project, workflows, n);
      VersionsAreRanks(rows, project, workflows, name, n - 1);
      assert all[..|all| - 1] == earlier;
    }
  }

  lemma {:induction false} NoRowsNoVersion(rows: seq<WorkflowRow>, project: nat, name: string)
    requires forall k | 0 <= k < |rows| :: rows[k].project != project
    ensures NextVersion(rows, project, name) == 1
  {
    if rows != [] {
      NoRowsNoVersion(rows[..|rows| - 1], project, name);
    }
  }

  /** The packaged form of the i-th imported workflow. */
  function Reexported(p: Package, base: nat, ids: map<int, int>, i: nat): PackagedWorkflow
    requires i < |p.workflows|
  {
    var w := p.workflows[i];
    PackagedWorkflow(Some(base + i), w.name, 1 + CountNamed(p.workflows, w.name, i), RenameSteps(w.steps, ids))
  }

  function ReexportedAll(p: Package, base: nat, ids: map<int, int>, n: nat): seq<PackagedWorkflow>
    requires n <= |p.workflows|
  {
    if n == 0 then [] else ReexportedAll(p, base, ids, n - 1) + [Reexported(p, base, ids, n - 1)]
  }

  /** The table when the first `n` workflows of a package are in it. */
  function TableAfter(p: Package, rows: seq<WorkflowRow>, project: nat, ids: map<int, int>, n: nat): seq<WorkflowRow>
    requires n <= |p.workflows|
  {
    RemappedRows(CreatedRows(rows, project, p.workflows, n), |rows|, n, ids)
  }

  /** Round trip: exporting an imported project gives back the workflows, with new ids,
      and with each version the workflow's rank among those of its name. */
  lemma {:induction false} ExportUndoesImport(p: Package, rows: seq<WorkflowRow>, project: nat, ids: map<int, int>, n: nat,
                                              after: seq<WorkflowRow>)
    requires forall k | 0 <= k < |rows| :: rows[k].project != project
    requires n <= |p.workflows| && after == TableAfter(p, rows, project, ids, n)
    ensures ExportWorkflows(after, project) == ReexportedAll(p, |rows|, ids, n)
  {
    if n == 0 {
      assert after == rows;
      NothingToExport(rows, project);
    } else {
      var before := TableAfter(p, rows, project, ids, n - 1);
      var w := Reexported(p, |rows|, ids, n - 1);
      ExportUndoesImport(p, rows, project, ids, n - 1, before);
      LastImported(p, rows, project, ids, n, before, after, w);
      ExportLast(before, project, WorkflowRow(project, w.name, w.version, w.steps), after);
    }
  }

  lemma {:induction false} ExportLast(rows: seq<WorkflowRow>, project: nat, row: WorkflowRow, after: seq<WorkflowRow>)
    requires after == rows + [row] && row.project == project
    ensures ExportWorkflows(after, project)
            == ExportWorkflows(rows, project) + [PackagedWorkflow(Some(|rows|), row.name, row.version, row.steps)]
  {
    assert after[..|rows|] == rows;
  }

  lemma LastImported(p: Package, rows: seq<WorkflowRow>, project: nat, ids: map<int, int>, n: nat, before: seq<WorkflowRow>,
                     after: seq<WorkflowRow>, w: PackagedWorkflow)
    requires forall k | 0 <= k < |rows| :: rows[k].project != project
    requires 0 < n <= |p.workflows| && w == Reexported(p, |rows|, ids, n - 1)
    requires before == TableAfter(p, rows, project, ids, n - 1) && after == TableAfter(p, rows, project, ids, n)
    ensures |before| == |rows| + n - 1 && after == before + [WorkflowRow(project, w.name, w.version, w.steps)]
  {
    var packaged := p.workflows[n - 1];
    var created := CreatedRows(rows, project, p.workflows, n - 1);
    VersionsAreRanks(rows, project, p.workflows, packaged.name, n - 1);
    RemapAppend(created, WorkflowRow(project, packaged.name, w.version, packaged.steps), |rows|, n - 1, ids);
  }

  lemma RemapAppend(created: seq<WorkflowRow>, row: WorkflowRow, base: nat, n: nat, ids: map<int, int>)
    requires |created| == base + n
    ensures RemappedRows(created + [row], base, n + 1, ids)
            == RemappedRows(created, base, n, ids) + [row.(steps := RenameSteps(row.steps, ids))]
  {
  }

  lemma {:induction false} NothingToExport(rows: seq<WorkflowRow>, project: nat)
    requires forall k | 0 <= k < |rows| :: rows[k].project != project
    ensures ExportWorkflows(rows, project) == []
  {
    if rows != [] {
      NothingToExport(rows[..|rows| - 1], project);
    }
  }

  /** Each element mapped, in reverse order. */
  function Mirrored<T>(s: seq<T>, f: T -> T): (m: seq<T>)
    ensures |m| == |s|
  {
    seq(|s|, i requires 0 <= i < |s| => f(s[|s| - 1 - i]))
  }

  lemma MirroredAppend<T>(s: seq<T>, x: T, f: T -> T)
    ensures Mirrored(s + [x], f) == [f(x)] + Mirrored(s, f)
  {
  }

  lemma MirroredTwice<T>(s: seq<T>, f: T -> T, once: seq<T>, i: nat)
    requires i < |s| && once == Mirrored(s, f)
    ensures Mirrored(once, f)[i] == f(f(s[i]))
  {
    var mirror := |s| - 1 - i;
    assert once[mirror] == f(s[i]) && |once| - 1 - i == mirror;
  }

  /** A dataset as an import stores it. */
  function NormalizedOne(d: PackagedDataset): PackagedDataset {
    PackagedDataset(d.name, Normalized(d.cases))
  }

  function Normalizer(): PackagedDataset -> PackagedDataset {
    (d: PackagedDataset) => NormalizedOne(d)
  }

  /** The datasets after one import and export: newest first, and with normalized ids. */
  function RoundTrip(datasets: seq<PackagedDataset>): seq<PackagedDataset> {
    Mirrored(datasets, Normalizer())
  }

  lemma {:induction false} ExportReversesDatasets(datasets: seq<PackagedDataset>, rows: seq<DatasetRow>, project: nat)
    requires forall k | 0 <= k < |rows| :: rows[k].project != project
    ensures ExportDatasets(rows + ImportedDatasets(project, datasets), project) == RoundTrip(datasets)
  {
    if datasets == [] {
      assert rows + ImportedDatasets(project, datasets) == rows;
      NoDatasetsToExport(rows, project);
    } else {
      var init, last := datasets[..|datasets| - 1], datasets[|datasets| - 1];
      ImportedOneMore(project, init, last, datasets);
      assert datasets == init + [last];
      MirroredAppend(init, last, Normalizer());
      var all := rows + ImportedDatasets(project, datasets);
      assert all[..|all| - 1] == rows + ImportedDatasets(project, init);
      ExportReversesDatasets(init, rows, project);
    }
  }

  lemma {:induction false} NoDatasetsToExport(rows: seq<DatasetRow>, project: nat)
    requires forall k | 0 <= k < |rows| :: rows[k].project != project
    ensures ExportDatasets(rows, project) == []
  {
    if rows != [] {
      NoDatasetsToExport(rows[..|rows| - 1], project);
    }
  }

  /** Exporting an imported project: the workflows under new ids and ranks, the
      datasets in reverse order and normalized. */
  lemma {:induction false} ImportThenExport(p: Package, rows: seq<WorkflowRow>, datasets: seq<DatasetRow>, project: nat,
                                            row: Project)
    requires forall k | 0 <= k < |rows| :: rows[k].project != project
    requires forall k | 0 <= k < |datasets| :: datasets[k].project != project
    ensures ExportProject(row, project, ImportedTable(rows, project, p.workflows), datasets + ImportedDatasets(project, p.datasets))
            == Package(row.name, row.description,
                       ReexportedAll(p, |rows|, IdMap(p.workflows, |rows|, |p.workflows|), |p.workflows|), RoundTrip(p.datasets))
  {
    ExportUndoesImport(p, rows, project, IdMap(p.workflows, |rows|, |p.workflows|), |p.workflows|, ImportedTable(rows, project, p.workflows));
    ExportReversesDatasets(p.datasets, datasets, project);
  }

  /** A second round trip restores the order, and changes no case id any more. */
  lemma SecondRoundTripRestoresOrder(datasets: seq<PackagedDataset>, once: seq<PackagedDataset>, twice: seq<PackagedDataset>, d: nat)
    requires once == RoundTrip(datasets) && twice == RoundTrip(once) && d < |datasets|
    requires NoEmptyId(Normalized(datasets[d].cases))
    ensures |twice| == |datasets| && twice[d] == NormalizedOne(datasets[d])
  {
    MirroredTwice(datasets, Normalizer(), once, d);
    NormalizedOneTwice(datasets[d]);
  }

  lemma NormalizedOneTwice(d: PackagedDataset)
    requires NoEmptyId(Normalized(d.cases))
    ensures NormalizedOne(NormalizedOne(d)) == NormalizedOne(d)
  {
    NormalizedTwice(d.cases);
  }

  /******* Copying a project *******/

  lemma {:induction false} ExportHolds(p: Package, rows: seq<WorkflowRow>, project: nat)
    requires p.workflows == ExportWorkflows(rows, project)
    ensures Originals(p, SourceIds(p.workflows))
    ensures HoldsPackage(p, SourceIds(p.workflows), project, WorkflowsOf(rows))
  {
    var ws := p.workflows;
    ExportLists(rows, project);
    ExportedSources(rows, project);
    AllSourced(ws);
    forall i | 0 <= i < |ws|
      ensures SourceIds(ws)[i] in WorkflowsOf(rows)
      ensures WorkflowsOf(rows)[SourceIds(ws)[i]] == I.Workflow(project, ws[i].steps)
    { assert ws[i] in ws; }
  }

  /** Export followed by import copies a project's meaning: if no handoff leaves the
      project, its references are accepted, and every workflow's copy runs like it
      wherever the two projects agree on the credentials. */
  lemma {:induction false} CopyPreservesMeaning(o: Oracle, now: int, p: Package, project: Project, n: Names,
                                                from: seq<WorkflowRow>, datasets: seq<DatasetRow>, into: seq<WorkflowRow>,
                                                left: I.World, right: I.World, i: nat, original: int, copy: int,
                                                input: Value, maxSteps: int, role: string)
    requires n.project1 >= 0 && n.project2 >= 0
    requires p == ExportProject(project, n.project1, from, datasets) && Distinct(DatasetNames(p))
    requires Closed(from, n.project1)
    requires I.Valid(left) && left.workflows == WorkflowsOf(from)
    requires I.Valid(right) && right.workflows == WorkflowsOf(ImportedTable(into, n.project2, p.workflows))
    requires n.ids == NewIds(SourceIds(p.workflows), |into|)
    requires SameMemory(n, left.memory, right.memory) && AgreeOnCredentials(n, p, left.secrets, right.secrets)
    requires i < |SourceIds(p.workflows)| && original == SourceIds(p.workflows)[i] && copy == |into| + i
    ensures Validate(p) == None
    ensures EndedAlike(n, |left.runs|, |right.runs|,
                       I.StartRun(o, now, left, original, input, None, maxSteps, role),
                       I.StartRun(o, now, right, copy, input, None, maxSteps, role))
  {
    ExportReferencesExactly(project, n.project1, from, datasets);
    ExportHolds(p, from, n.project1);
    ImportPreservesMeaning(o, now, p, n, SourceIds(p.workflows), into, left, right, i, original, copy, input, maxSteps, role);
  }
}
