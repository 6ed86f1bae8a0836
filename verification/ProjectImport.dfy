/**
  Project packages: the validator, export and import.  Tables are sequences and
  ids are positions; rows are listed in creation order.
  */
module ProjectImport {
  import opened Prelude
  import opened Json
  import opened Runs
  import opened Text
  import opened Datasets
  import opened Renaming
  import I = Interpreter

  datatype PackagedWorkflow = PackagedWorkflow(sourceId: Option<int>, name: string, version: int, steps: seq<Step>)

  datatype PackagedDataset = PackagedDataset(name: string, cases: seq<Case>)

  datatype Package = Package(name: string, description: string, workflows: seq<PackagedWorkflow>,
                             datasets: seq<PackagedDataset>)

  /******* The validator *******/

  datatype Rejection = DuplicateDatasetNames | DuplicateSourceIds | SourceIdsRequired | UnknownTargets

  function SourceIds(workflows: seq<PackagedWorkflow>): seq<int> {
    if workflows == [] then []
    else
      var last := workflows[|workflows| - 1];
      SourceIds(workflows[..|workflows| - 1]) + (if last.sourceId.Some? then [last.sourceId.value] else [])
  }

  function HandoffTargets(workflows: seq<PackagedWorkflow>): set<int> {
    set i, j | 0 <= i < |workflows| && 0 <= j < |workflows[i].steps| && workflows[i].steps[j].tool.Handoff?
      :: workflows[i].steps[j].tool.target
  }

  function DatasetNames(p: Package): seq<string> {
    seq(|p.datasets|, i requires 0 <= i < |p.datasets| => p.datasets[i].name)
  }

  /** `validate_references_and_names` */
  function Validate(p: Package): Option<Rejection> {
    var sourceIds := SourceIds(p.workflows);
    var targets := HandoffTargets(p.workflows);
    if !Distinct(DatasetNames(p)) then Some(DuplicateDatasetNames)
    else if !Distinct(sourceIds) then Some(DuplicateSourceIds)
    else if targets != {} && |sourceIds| != |p.workflows| then Some(SourceIdsRequired)
    else if !(forall t | t in targets :: t in sourceIds) then Some(UnknownTargets)
    else None
  }

  /** What the schema types leave of a package: names are stripped of outer whitespace,
      and a case id, if given, is not empty. */
  predicate Parsed(p: Package) {
    && NamesStripped(p.workflows)
    && NoEmptyIds(p.datasets)
  }

  predicate NoEmptyIds(datasets: seq<PackagedDataset>) {
    forall d | 0 <= d < |datasets| :: NoEmptyId(datasets[d].cases)
  }

  predicate NamesStripped(workflows: seq<PackagedWorkflow>) {
    forall i {:trigger Strip(workflows[i].name)} | 0 <= i < |workflows| :: Strip(workflows[i].name) == workflows[i].name
  }

  predicate NoEmptyId(cases: seq<Case>) {
    forall i | 0 <= i < |cases| :: cases[i].id != Some("")
  }

  predicate Accepted(p: Package) {
    Parsed(p) && Validate(p) == None
  }

  lemma {:induction false} SourceIdsComplete(workflows: seq<PackagedWorkflow>)
    ensures |SourceIds(workflows)| <= |workflows|
    ensures |SourceIds(workflows)| == |workflows| <==> forall i | 0 <= i < |workflows| :: workflows[i].sourceId.Some?
    ensures forall s :: s in SourceIds(workflows) <==> exists i | 0 <= i < |workflows| :: workflows[i].sourceId == Some(s)
  {
    if workflows != [] {
      SourceIdsComplete(workflows[..|workflows| - 1]);
    }
  }

  /** Distinct source ids, workflow by workflow. */
  lemma {:induction false} DistinctSources(workflows: seq<PackagedWorkflow>, i: nat, j: nat)
    requires Distinct(SourceIds(workflows)) && i < j < |workflows|
    requires workflows[i].sourceId.Some? && workflows[j].sourceId.Some?
    ensures workflows[i].sourceId != workflows[j].sourceId
  {
    var n := |workflows| - 1;
    var init := SourceIds(workflows[..n]);
    assert SourceIds(workflows)[..|init|] == init;
    SourceIdsComplete(workflows[..n]);
    if j == n {
      var s := workflows[i].sourceId.value;
      assert workflows[..n][i].sourceId == Some(s);
      var k :| 0 <= k < |init| && init[k] == s;
      assert SourceIds(workflows)[k] == s && SourceIds(workflows)[|init|] == workflows[n].sourceId.value;
    } else {
      assert Distinct(init) by {
        forall a, b | 0 <= a < b < |init|
          ensures init[a] != init[b]
        { assert SourceIds(workflows)[a] == init[a] && SourceIds(workflows)[b] == init[b]; }
      }
      DistinctSources(workflows[..n], i, j);
    }
  }

  /** And the other way round. */
  lemma {:induction false} DistinctBySource(workflows: seq<PackagedWorkflow>)
    requires forall i, j | 0 <= i < j < |workflows| && workflows[i].sourceId.Some? :: workflows[i].sourceId != workflows[j].sourceId
    ensures Distinct(SourceIds(workflows))
  {
    if workflows != [] {
      var n := |workflows| - 1;
      DistinctBySource(workflows[..n]);
      SourceIdsComplete(workflows[..n]);
    }
  }

  /******* What the validator refuses, in terms of the package *******/

  ghost predicate DatasetNameRepeats(p: Package) {
    exists i, j | 0 <= i < j < |p.datasets| :: p.datasets[i].name == p.datasets[j].name
  }

  ghost predicate SourceIdRepeats(p: Package) {
    exists i, j | 0 <= i < j < |p.workflows| ::
      p.workflows[i].sourceId.Some? && p.workflows[i].sourceId == p.workflows[j].sourceId
  }

  ghost predicate HandsOffTo(p: Package, i: nat, j: nat, target: int) {
    && i < |p.workflows| && j < |p.workflows[i].steps|
    && p.workflows[i].steps[j].tool.Handoff? && p.workflows[i].steps[j].tool.target == target
  }

  ghost predicate HasSource(p: Package, target: int) {
    exists k | 0 <= k < |p.workflows| :: p.workflows[k].sourceId == Some(target)
  }

  /** Some workflow has no source id although some step, of whatever workflow, hands off. */
  ghost predicate SourceIdLacking(p: Package) {
    && (exists i: nat, j: nat, t: int :: HandsOffTo(p, i, j, t))
    && (exists k | 0 <= k < |p.workflows| :: p.workflows[k].sourceId == None)
  }

  ghost predicate TargetOutside(p: Package) {
    exists i: nat, j: nat, t: int :: HandsOffTo(p, i, j, t) && !HasSource(p, t)
  }

  /** The validator refuses a package for four reasons, in this order, and no other. */
  lemma RefusedExactly(p: Package)
    ensures Validate(p) == if DatasetNameRepeats(p) then Some(DuplicateDatasetNames)
                           else if SourceIdRepeats(p) then Some(DuplicateSourceIds)
                           else if SourceIdLacking(p) then Some(SourceIdsRequired)
                           else if TargetOutside(p) then Some(UnknownTargets)
                           else None
  {
    var targets := HandoffTargets(p.workflows);
    NamesRepeatExactly(p);
    SourcesRepeatExactly(p);
    HandsOffExactly(p, targets);
    SourcesExactly(p);
  }

  lemma SourcesExactly(p: Package)
    ensures |SourceIds(p.workflows)| == |p.workflows| <==> !exists k | 0 <= k < |p.workflows| :: p.workflows[k].sourceId == None
    ensures forall t :: t in SourceIds(p.workflows) <==> HasSource(p, t)
  {
    SourceIdsComplete(p.workflows);
  }

  lemma NamesRepeatExactly(p: Package)
    ensures Distinct(DatasetNames(p)) <==> !DatasetNameRepeats(p)
  {
    var names := DatasetNames(p);
    if i, j :| 0 <= i < j < |p.datasets| && p.datasets[i].name == p.datasets[j].name {
      assert names[i] == names[j];
    }
    if i, j :| 0 <= i < j < |names| && names[i] == names[j] {
      assert p.datasets[i].name == p.datasets[j].name;
    }
  }

  lemma SourcesRepeatExactly(p: Package)
    ensures Distinct(SourceIds(p.workflows)) <==> !SourceIdRepeats(p)
  {
    var ws := p.workflows;
    if Distinct(SourceIds(ws)) {
      forall i, j | 0 <= i < j < |ws| && ws[i].sourceId.Some?
        ensures ws[i].sourceId != ws[j].sourceId
      { if ws[j].sourceId.Some? { DistinctSources(ws, i, j); } }
    }
    if !SourceIdRepeats(p) {
      DistinctBySource(ws);
    }
  }

  lemma TargetsExactly(p: Package, t: int)
    ensures t in HandoffTargets(p.workflows) <==> exists i: nat, j: nat :: HandsOffTo(p, i, j, t)
  {
    if i: nat, j: nat :| HandsOffTo(p, i, j, t) {
      assert p.workflows[i].steps[j].tool.target == t;
    }
    if t in HandoffTargets(p.workflows) {
      var i, j :| 0 <= i < |p.workflows| && 0 <= j < |p.workflows[i].steps| && p.workflows[i].steps[j].tool.Handoff?
                  && p.workflows[i].steps[j].tool.target == t;
      assert HandsOffTo(p, i, j, t);
    }
  }

  lemma HandsOffExactly(p: Package, targets: set<int>)
    requires targets == HandoffTargets(p.workflows)
    ensures targets != {} <==> exists i: nat, j: nat, t: int :: HandsOffTo(p, i, j, t)
    ensures (exists t :: t in targets && !HasSource(p, t)) <==> TargetOutside(p)
  {
    forall i: nat, j: nat, t: int | HandsOffTo(p, i, j, t)
      ensures t in targets
    { TargetsExactly(p, t); }
    forall t | t in targets
      ensures exists i: nat, j: nat :: HandsOffTo(p, i, j, t)
    { TargetsExactly(p, t); }
    if targets != {} {
      var t :| t in targets;
      var i: nat, j: nat :| HandsOffTo(p, i, j, t);
      assert HandsOffTo(p, i, j, t);
    }
  }

  /******* Import *******/

  datatype Project = Project(name: string, description: string)

  datatype WorkflowRow = WorkflowRow(project: nat, name: string, version: nat, steps: seq<Step>)

  datatype DatasetRow = DatasetRow(project: nat, name: string, cases: seq<Case>)

  datatype ImportError = NoSuchProject | NameTaken | VersionTaken | TargetMissing | DuplicateCaseId | DatasetNameTaken

  datatype Imported = Imported(project: nat, workflowIds: seq<nat>, datasetIds: seq<nat>)

  /** `SELECT COALESCE(MAX(version), 0) + 1` over a project's workflows of one name. */
  function NextVersion(rows: seq<WorkflowRow>, project: nat, name: string): nat {
    if rows == [] then 1
    else
      var last := rows[|rows| - 1];
      var rest := NextVersion(rows[..|rows| - 1], project, name);
      if last.project == project && last.name == name && last.version >= rest then last.version + 1 else rest
  }

  /** One more than the largest version of that name in the project, or 1. */
  lemma {:induction false} NextVersionIsAbove(rows: seq<WorkflowRow>, project: nat, name: string)
    ensures forall k | 0 <= k < |rows| && rows[k].project == project && rows[k].name == name ::
              rows[k].version < NextVersion(rows, project, name)
    ensures NextVersion(rows, project, name) == 1
            || exists k | 0 <= k < |rows| && rows[k].project == project && rows[k].name == name ::
                 rows[k].version + 1 == NextVersion(rows, project, name)
  {
    if rows != [] {
      NextVersionIsAbove(rows[..|rows| - 1], project, name);
    }
  }

  /** `create_workflow` looks the version up under the name as given, but stores the
      stripped name: the unique index on (project, name, version) can refuse the row. */
  predicate Clash(rows: seq<WorkflowRow>, project: nat, name: string) {
    exists k | 0 <= k < |rows| ::
      rows[k].project == project && rows[k].name == Strip(name) && rows[k].version == NextVersion(rows, project, name)
  }

  lemma StrippedNamesNeverClash(rows: seq<WorkflowRow>, project: nat, name: string)
    requires Strip(name) == name
    ensures !Clash(rows, project, name)
  {
    NextVersionIsAbove(rows, project, name);
  }

  /** `workflow_id_map` after the first `n` workflows. */
  function IdMap(workflows: seq<PackagedWorkflow>, base: nat, n: nat): map<int, int>
    requires n <= |workflows|
  {
    if n == 0 then map[]
    else
      WithSource(IdMap(workflows, base, n - 1), workflows[n - 1].sourceId, base + n - 1)
  }

  function WithSource(ids: map<int, int>, source: Option<int>, id: int): map<int, int> {
    if source.Some? then ids[source.value := id] else ids
  }

  /** The table after `create_workflow` has added the first `n` workflows of a package. */
  function CreatedRows(rows: seq<WorkflowRow>, project: nat, workflows: seq<PackagedWorkflow>, n: nat): (created: seq<WorkflowRow>)
    requires n <= |workflows|
    ensures |created| == |rows| + n
  {
    if n == 0 then rows
    else
      var earlier := CreatedRows(rows, project, workflows, n - 1);
      var w := workflows[n - 1];
      earlier + [WorkflowRow(project, w.name, NextVersion(earlier, project, w.name), w.steps)]
  }

  lemma {:induction false} CreatedRowsHold(rows: seq<WorkflowRow>, project: nat, workflows: seq<PackagedWorkflow>, n: nat)
    requires n <= |workflows|
    ensures rows <= CreatedRows(rows, project, workflows, n)
    ensures forall k | |rows| <= k < |rows| + n ::
      Holds(CreatedRows(rows, project, workflows, n)[k], project, workflows[k - |rows|])
  {
    if n > 0 {
      CreatedRowsHold(rows, project, workflows, n - 1);
    }
  }

  predicate Holds(row: WorkflowRow, project: nat, w: PackagedWorkflow) {
    row.project == project && row.name == w.name && row.steps == w.steps
  }

  /** The workflows table after a package was imported into it. */
  function ImportedTable(rows: seq<WorkflowRow>, project: nat, workflows: seq<PackagedWorkflow>): seq<WorkflowRow> {
    RemappedRows(CreatedRows(rows, project, workflows, |workflows|), |rows|, |workflows|, IdMap(workflows, |rows|, |workflows|))
  }

  /** The same rows with the handoff targets of the first `n` new ones remapped. */
  function RemappedRows(created: seq<WorkflowRow>, base: nat, n: nat, ids: map<int, int>): seq<WorkflowRow>
    requires base + n <= |created|
  {
    seq(|created|, k requires 0 <= k < |created| =>
      if base <= k < base + n then created[k].(steps := RenameSteps(created[k].steps, ids)) else created[k])
  }

  /** The ids of rows inserted one after the other. */
  predicate Consecutive(ids: seq<nat>, base: nat) {
    forall i | 0 <= i < |ids| :: ids[i] == base + i
  }

  lemma ConsecutiveAppend(ids: seq<nat>, base: nat, id: nat)
    requires Consecutive(ids, base) && id == base + |ids|
    ensures Consecutive(ids + [id], base)
  {
  }

  /** The first workflow from `i` on that hands off to a workflow outside the package. */
  function FirstUnmapped(workflows: seq<PackagedWorkflow>, ids: map<int, int>, i: nat): (n: nat)
    requires i <= |workflows|
    ensures i <= n <= |workflows|
    decreases |workflows| - i
  {
    if i == |workflows| || !TargetsIn(workflows[i].steps, ids.Keys) then i else FirstUnmapped(workflows, ids, i + 1)
  }

  /** Why `create_dataset` refuses a dataset of a package in a new project. */
  function FaultAt(datasets: seq<PackagedDataset>, d: nat): Option<ImportError>
    requires d < |datasets|
  {
    if !Distinct(CaseIds(datasets[d].cases)) then Some(DuplicateCaseId)
    else if exists e | 0 <= e < d :: datasets[e].name == datasets[d].name then Some(DatasetNameTaken)
    else None
  }

  /** The first dataset from `d` on that is refused. */
  function FirstFault(datasets: seq<PackagedDataset>, d: nat): (n: nat)
    requires d <= |datasets|
    ensures d <= n <= |datasets|
    ensures n < |datasets| ==> FaultAt(datasets, n).Some?
    decreases |datasets| - d
  {
    if d == |datasets| || FaultAt(datasets, d).Some? then d else FirstFault(datasets, d + 1)
  }

  lemma {:induction false} MappableExactly(workflows: seq<PackagedWorkflow>, ids: map<int, int>, i: nat)
    requires i <= |workflows|
    ensures FirstUnmapped(workflows, ids, i) == |workflows| <==>
              forall j | i <= j < |workflows| :: TargetsIn(workflows[j].steps, ids.Keys)
    decreases |workflows| - i
  {
    if i < |workflows| {
      MappableExactly(workflows, ids, i + 1);
    }
  }

  lemma {:induction false} LoadableExactly(datasets: seq<PackagedDataset>, d: nat)
    requires d <= |datasets|
    ensures FirstFault(datasets, d) == |datasets| <==> forall e | d <= e < |datasets| :: FaultAt(datasets, e) == None
    decreases |datasets| - d
  {
    if d < |datasets| {
      LoadableExactly(datasets, d + 1);
    }
  }

  /** The datasets of a package load exactly if no dataset repeats a case id and no
      name is repeated. */
  lemma {:induction false} FaultlessExactly(datasets: seq<PackagedDataset>)
    ensures FirstFault(datasets, 0) == |datasets| <==> CasesImportable(datasets) && DistinctNames(datasets)
  {
    LoadableExactly(datasets, 0);
    if CasesImportable(datasets) && DistinctNames(datasets) {
      forall d | 0 <= d < |datasets|
        ensures FaultAt(datasets, d) == None
      {}
    }
    if forall d | 0 <= d < |datasets| :: FaultAt(datasets, d) == None {
      forall d | 0 <= d < |datasets|
        ensures Distinct(CaseIds(datasets[d].cases)) && forall e | 0 <= e < d :: datasets[e].name != datasets[d].name
      { assert FaultAt(datasets, d) == None; }
    }
  }

  predicate DistinctNames(datasets: seq<PackagedDataset>) {
    forall i, j | 0 <= i < j < |datasets| :: datasets[i].name != datasets[j].name
  }

  predicate AllTargetsMapped(workflows: seq<PackagedWorkflow>, ids: map<int, int>) {
    forall i | 0 <= i < |workflows| :: TargetsIn(workflows[i].steps, ids.Keys)
  }

  predicate CasesImportable(datasets: seq<PackagedDataset>) {
    forall d | 0 <= d < |datasets| :: Distinct(CaseIds(datasets[d].cases))
  }

  function ImportedDatasets(project: nat, datasets: seq<PackagedDataset>): (rows: seq<DatasetRow>)
    ensures |rows| == |datasets|
  {
    seq(|datasets|, d requires 0 <= d < |datasets| =>
      DatasetRow(project, datasets[d].name, Normalized(datasets[d].cases)))
  }

  /** `name or source_project["name"]` */
  function Title(p: Package, name: Option<string>): string {
    if name.Some? && name.value != "" then name.value else p.name
  }

  class Catalog {
    var projects: seq<Project>
    var workflows: seq<WorkflowRow>
    var datasets: seq<DatasetRow>

    constructor ()
      ensures projects == [] && workflows == [] && datasets == []
    {
      projects, workflows, datasets := [], [], [];
    }

    predicate NameFree(name: string)
      reads this`projects
    {
      forall i | 0 <= i < |projects| :: projects[i].name != name
    }

    /** `create_workflow` */
    method CreateWorkflow(project: nat, name: string, steps: seq<Step>) returns (result: Result<nat, ImportError>)
      modifies this`workflows
      ensures result == if project >= |projects| then Failure(NoSuchProject)
                        else if Clash(old(workflows), project, name) then Failure(VersionTaken) else Success(|old(workflows)|)
      ensures result.Failure? ==> workflows == old(workflows)
      ensures result.Success? ==>
        workflows == old(workflows) + [WorkflowRow(project, Strip(name), NextVersion(old(workflows), project, name), steps)]
    {
      if project >= |projects| {
        return Failure(NoSuchProject);
      }
      var row := WorkflowRow(project, Strip(name), NextVersion(workflows, project, name), steps);
      if exists k | 0 <= k < |workflows| ::
        workflows[k].project == project && workflows[k].name == row.name && workflows[k].version == row.version
      {
        return Failure(VersionTaken);
      }
      result := Success(|workflows|);
      workflows := workflows + [row];
    }

    /** `create_dataset` */
    method CreateDataset(project: nat, name: string, cases: seq<Case>) returns (result: Result<nat, ImportError>)
      modifies this`datasets
      ensures project >= |projects| ==> result == Failure(NoSuchProject)
      ensures project < |projects| && !Distinct(CaseIds(cases)) ==> result == Failure(DuplicateCaseId)
      ensures project < |projects| && Distinct(CaseIds(cases)) ==>
        result == (if exists d | 0 <= d < |old(datasets)| :: old(datasets)[d].project == project && old(datasets)[d].name == name
                   then Failure(DatasetNameTaken) else Success(|old(datasets)|))
      ensures datasets == if result.Success? then old(datasets) + [DatasetRow(project, name, Normalized(cases))] else old(datasets)
    {
      if project >= |projects| {
        return Failure(NoSuchProject);
      }
      var normalized := NormalizeCases(cases);
      if normalized.Failure? {
        return Failure(DuplicateCaseId);
      }
      if exists d | 0 <= d < |datasets| :: datasets[d].project == project && datasets[d].name == name {
        return Failure(DatasetNameTaken);
      }
      result := Success(|datasets|);
      datasets := datasets + [DatasetRow(project, name, normalized.value)];
    }

    /** The inner loop of the remap: every handoff step of one workflow. */
    method RemapSteps(original: seq<Step>, ids: map<int, int>) returns (result: Option<seq<Step>>)
      ensures result.Some? <==> TargetsIn(original, ids.Keys)
      ensures result.Some? ==> result.value == RenameSteps(original, ids)
    {
      var steps := original;
      var i := 0;
      while i < |steps|
        invariant i <= |steps| == |original|
        invariant steps[i..] == original[i..]
        invariant forall j | 0 <= j < i :: steps[j] == RenameStep(original[j], ids)
        invariant forall j | 0 <= j < i && original[j].tool.Handoff? :: original[j].tool.target in ids
      {
        assert steps[i] == original[i..][0];
        if steps[i].tool.Handoff? {
          var target := steps[i].tool.target;
          if target !in ids {
            return None;
          }
          steps := steps[i := steps[i].(tool := steps[i].tool.(target := ids[target]))];
        }
        i := i + 1;
      }
      return Some(steps);
    }

    /** `import_project`, for a package as the schema types parse it.  Each insert
        commits on its own, so a failure keeps what was created before it. */
    method ImportProject(p: Package, name: Option<string>) returns (result: Result<Imported, ImportError>)
      requires forall d | 0 <= d < |datasets| :: datasets[d].project < |projects|
      requires NamesStripped(p.workflows)
      modifies this
      ensures projects == if old(NameFree(Title(p, name))) then old(projects) + [Project(Title(p, name), p.description)] else old(projects)
      ensures var base, project, ws := |old(workflows)|, |old(projects)|, p.workflows;
        var ids := IdMap(ws, base, |ws|);
        var mapped, loaded := FirstUnmapped(ws, ids, 0), FirstFault(p.datasets, 0);
        if !old(NameFree(Title(p, name))) then
          result == Failure(NameTaken) && workflows == old(workflows) && datasets == old(datasets)
        else if mapped < |ws| then
          result == Failure(TargetMissing) && datasets == old(datasets)
          && workflows == RemappedRows(CreatedRows(old(workflows), project, ws, |ws|), base, mapped, ids)
        else
          && workflows == ImportedTable(old(workflows), project, ws)
          && datasets == old(datasets) + ImportedDatasets(project, p.datasets[..loaded])
          && (loaded < |p.datasets| ==> result.Failure? && FaultAt(p.datasets, loaded) == Some(result.error))
          && (loaded == |p.datasets| ==> result.Success? && result.value.project == project
                                         && |result.value.workflowIds| == |ws| && Consecutive(result.value.workflowIds, base))
    {
      var title := Title(p, name);
      if !NameFree(title) {
        return Failure(NameTaken);
      }
      var project := |projects|;
      projects := projects + [Project(title, p.description)];
      var workflowIds, ids := CreateAll(project, p.workflows);
      CreatedRowsHold(old(workflows), project, p.workflows, |p.workflows|);
      assert |workflows| - |p.workflows| == |old(workflows)|;
      var mapped := RemapAll(p.workflows, workflowIds, ids);
      if !mapped {
        return Failure(TargetMissing);
      }
      var made := CreateDatasets(project, p.datasets);
      if made.Failure? {
        return Failure(made.error);
      }
      assert p.datasets[..|p.datasets|] == p.datasets;
      return Success(Imported(project, workflowIds, made.value));
    }

    method CreateAll(project: nat, packaged: seq<PackagedWorkflow>) returns (workflowIds: seq<nat>, ids: map<int, int>)
      requires NamesStripped(packaged) && project < |projects|
      modifies this`workflows
      ensures workflows == CreatedRows(old(workflows), project, packaged, |packaged|)
      ensures |workflowIds| == |packaged| && Consecutive(workflowIds, |old(workflows)|)
      ensures ids == IdMap(packaged, |old(workflows)|, |packaged|)
    {
      workflowIds, ids := [], map[];
      var i := 0;
      while i < |packaged|
        invariant i <= |packaged|
        invariant workflows == CreatedRows(old(workflows), project, packaged, i)
        invariant |workflowIds| == i && Consecutive(workflowIds, |old(workflows)|)
        invariant ids == IdMap(packaged, |old(workflows)|, i)
      {
        var id := CreateNth(project, packaged, i);
        ConsecutiveAppend(workflowIds, |old(workflows)|, id);
        workflowIds := workflowIds + [id];
        ids := WithSource(ids, packaged[i].sourceId, id);
        i := i + 1;
      }
    }

    /** `create_workflow` on the i-th packaged workflow: a stripped name never clashes. */
    method CreateNth(project: nat, packaged: seq<PackagedWorkflow>, i: nat) returns (id: nat)
      requires NamesStripped(packaged) && i < |packaged| && project < |projects|
      modifies this`workflows
      ensures id == |old(workflows)|
      ensures workflows == old(workflows) + [WorkflowRow(project, packaged[i].name, NextVersion(old(workflows), project, packaged[i].name),
                                                         packaged[i].steps)]
    {
      var name := packaged[i].name;
      assert Strip(name) == name;
      StrippedNamesNeverClash(workflows, project, name);
      var created := CreateWorkflow(project, name, packaged[i].steps);
      id := created.value;
    }

    method RemapAll(packaged: seq<PackagedWorkflow>, workflowIds: seq<nat>, ids: map<int, int>) returns (mapped: bool)
      requires |workflowIds| == |packaged| <= |workflows| && Consecutive(workflowIds, |workflows| - |packaged|)
      requires forall k | |workflows| - |packaged| <= k < |workflows| ::
                 workflows[k].steps == packaged[k - (|workflows| - |packaged|)].steps
      modifies this`workflows
      ensures mapped <==> FirstUnmapped(packaged, ids, 0) == |packaged|
      ensures workflows == RemappedRows(old(workflows), |old(workflows)| - |packaged|, FirstUnmapped(packaged, ids, 0), ids)
    {
      ghost var base: nat := |workflows| - |packaged|;
      var i := 0;
      while i < |packaged|
        invariant i <= |packaged| && |workflows| == |old(workflows)|
        invariant FirstUnmapped(packaged, ids, i) == FirstUnmapped(packaged, ids, 0)
        invariant workflows == RemappedRows(old(workflows), base, i, ids)
      {
        var id := workflowIds[i];
        assert id == base + i;
        var steps := RemapSteps(packaged[i].steps, ids);
        if steps.None? {
          return false;
        }
        workflows := workflows[id := workflows[id].(steps := steps.value)];
        i := i + 1;
      }
      return true;
    }

    method CreateDatasets(project: nat, packaged: seq<PackagedDataset>) returns (result: Result<seq<nat>, ImportError>)
      requires project < |projects| && forall d | 0 <= d < |datasets| :: datasets[d].project != project
      modifies this`datasets
      ensures datasets == old(datasets) + ImportedDatasets(project, packaged[..FirstFault(packaged, 0)])
      ensures result.Success? <==> FirstFault(packaged, 0) == |packaged|
      ensures result.Failure? ==> FaultAt(packaged, FirstFault(packaged, 0)) == Some(result.error)
    {
      var made := [];
      var d := 0;
      assert ImportedDatasets(project, packaged[..0]) == [];
      while d < |packaged|
        invariant d <= |packaged| && FirstFault(packaged, d) == FirstFault(packaged, 0)
        invariant datasets == old(datasets) + ImportedDatasets(project, packaged[..d])
      {
        var created := CreateNthDataset(project, packaged, d, old(datasets));
        if created.Failure? {
          return Failure(created.error);
        }
        made := made + [created.value];
        d := d + 1;
      }
      assert packaged[..d] == packaged;
      return Success(made);
    }

    /** `create_dataset` on the d-th packaged dataset, after those before it. */
    method CreateNthDataset(project: nat, packaged: seq<PackagedDataset>, d: nat, ghost before: seq<DatasetRow>)
      returns (result: Result<nat, ImportError>)
      requires project < |projects| && d < |packaged| && forall e | 0 <= e < |before| :: before[e].project != project
      requires datasets == before + ImportedDatasets(project, packaged[..d])
      modifies this`datasets
      ensures match FaultAt(packaged, d)
        case Some(fault) => result == Failure(fault) && datasets == old(datasets)
        case None => result.Success? && datasets == before + ImportedDatasets(project, packaged[..d + 1])
    {
      NameTakenExactly(project, packaged[..d], before, datasets, packaged[d].name);
      NamesBefore(packaged, d);
      ImportedOneMore(project, packaged[..d], packaged[d], packaged[..d + 1]);
      result := CreateDataset(project, packaged[d].name, packaged[d].cases);
    }
  }

  lemma NamesBefore(datasets: seq<PackagedDataset>, d: nat)
    requires d < |datasets|
    ensures (exists e | 0 <= e < |datasets[..d]| :: datasets[..d][e].name == datasets[d].name)
            <==> exists e | 0 <= e < d :: datasets[e].name == datasets[d].name
  {
    if e :| 0 <= e < d && datasets[e].name == datasets[d].name {
      assert datasets[..d][e].name == datasets[d].name;
    }
  }

  lemma ImportedOneMore(project: nat, before: seq<PackagedDataset>, last: PackagedDataset, part: seq<PackagedDataset>)
    requires part == before + [last]
    ensures ImportedDatasets(project, part)
            == ImportedDatasets(project, before) + [DatasetRow(project, last.name, Normalized(last.cases))]
  {
  }

  /** A dataset name is taken in the new project exactly when the package repeats it. */
  lemma NameTakenExactly(project: nat, before: seq<PackagedDataset>, earlier: seq<DatasetRow>, rows: seq<DatasetRow>, name: string)
    requires rows == earlier + ImportedDatasets(project, before)
    requires forall e | 0 <= e < |earlier| :: earlier[e].project != project
    ensures (exists r | 0 <= r < |rows| :: rows[r].project == project && rows[r].name == name)
            <==> exists e | 0 <= e < |before| :: before[e].name == name
  {
    if r :| 0 <= r < |rows| && rows[r].project == project && rows[r].name == name {
      assert r >= |earlier| && before[r - |earlier|].name == name;
    }
    if e :| 0 <= e < |before| && before[e].name == name {
      assert rows[|earlier| + e].name == name;
    }
  }
}
