/**
  `compare_evaluations`: the case-by-case comparison of two evaluations of one
  dataset.  Case ids within an evaluation are distinct (see Datasets).
  */
module EvaluationDiff {
  import opened Prelude
  import opened Datasets
  import opened Evaluation

  datatype Transition = Regressed | Fixed | Removed | Added | StableFail | StablePass

  datatype DiffRow = DiffRow(caseId: string, transition: Transition, left: Option<CaseResult>, right: Option<CaseResult>)

  /** The order the rows are sorted by. */
  function Severity(t: Transition): nat {
    match t
    case Regressed => 0
    case Fixed => 1
    case Removed => 2
    case Added => 3
    case StableFail => 4
    case StablePass => 5
  }

  function Ids(results: seq<CaseResult>): set<string> {
    if results == [] then {} else Ids(results[..|results| - 1]) + {results[|results| - 1].caseId}
  }

  /** No case occurs twice. */
  ghost predicate DistinctIds(results: seq<CaseResult>) {
    forall i, j | 0 <= i < j < |results| :: results[i].caseId != results[j].caseId
  }

  /** The case of an id, as the dictionary of an evaluation gives it. */
  function Lookup(results: seq<CaseResult>, id: string): (found: Option<CaseResult>)
    ensures found.Some? <==> id in Ids(results)
    ensures found.Some? ==> found.value.caseId == id
  {
    if results == [] then None
    else if results[|results| - 1].caseId == id then Some(results[|results| - 1])
    else Lookup(results[..|results| - 1], id)
  }

  lemma {:induction false} IdsExact(results: seq<CaseResult>, id: string)
    ensures id in Ids(results) <==> exists i | 0 <= i < |results| :: results[i].caseId == id
  {
    if results != [] {
      var n := |results| - 1;
      IdsExact(results[..n], id);
      if i :| 0 <= i < |results[..n]| && results[..n][i].caseId == id {
        assert results[i].caseId == id;
      }
      if i :| 0 <= i < n && results[i].caseId == id {
        assert results[..n][i].caseId == id;
      }
    }
  }

  lemma DistinctInit(results: seq<CaseResult>)
    requires DistinctIds(results) && results != []
    ensures DistinctIds(results[..|results| - 1])
    ensures results[|results| - 1].caseId !in Ids(results[..|results| - 1])
  {
    IdsExact(results[..|results| - 1], results[|results| - 1].caseId);
  }

  function TransitionOf(left: Option<CaseResult>, right: Option<CaseResult>): Transition {
    if left.None? then Added
    else if right.None? then Removed
    else if left.value.passed && !right.value.passed then Regressed
    else if !left.value.passed && right.value.passed then Fixed
    else if right.value.passed then StablePass
    else StableFail
  }

  function Classify(left: seq<CaseResult>, right: seq<CaseResult>, id: string): Transition {
    TransitionOf(Lookup(left, id), Lookup(right, id))
  }

  /** `dict.fromkeys([*left_by_case, *right_by_case])` for distinct ids. */
  function UnionIds(left: seq<CaseResult>, right: seq<CaseResult>): seq<string> {
    if right == [] then
      (if left == [] then [] else UnionIds(left[..|left| - 1], []) + [left[|left| - 1].caseId])
    else
      UnionIds(left, right[..|right| - 1])
      + (if right[|right| - 1].caseId in Ids(left) then [] else [right[|right| - 1].caseId])
  }

  function RowOf(left: seq<CaseResult>, right: seq<CaseResult>, id: string): DiffRow {
    DiffRow(id, Classify(left, right, id), Lookup(left, id), Lookup(right, id))
  }

  /** The rows of some ids, before sorting. */
  function RowsOf(left: seq<CaseResult>, right: seq<CaseResult>, ids: seq<string>): seq<DiffRow> {
    if ids == [] then []
    else RowsOf(left, right, ids[..|ids| - 1]) + [RowOf(left, right, ids[|ids| - 1])]
  }

  function Report(left: seq<CaseResult>, right: seq<CaseResult>): seq<DiffRow> {
    SortRows(RowsOf(left, right, UnionIds(left, right)))
  }

  /** `compare_evaluations`: refuses evaluations of different datasets, and builds the
      rows one id at a time. */
  method CompareEvaluations(leftDataset: nat, left: seq<CaseResult>, rightDataset: nat, right: seq<CaseResult>)
      returns (report: Result<(seq<DiffRow>, map<Transition, nat>), string>)
    ensures report.Success? <==> leftDataset == rightDataset
    ensures report.Success? ==> report.value.0 == Report(left, right)
    ensures report.Success? ==>
      forall t: Transition :: t in report.value.1 && report.value.1[t] == Count(Report(left, right), t)
  {
    if leftDataset != rightDataset {
      return Failure("cannot compare evaluations across different datasets");
    }
    var ids := UnionIds(left, right);
    var rows: seq<DiffRow> := [];
    var i := 0;
    while i < |ids|
      invariant i <= |ids| && rows == RowsOf(left, right, ids[..i])
    {
      assert ids[..i + 1][..i] == ids[..i];
      rows := rows + [RowOf(left, right, ids[i])];
      i := i + 1;
    }
    assert ids[..i] == ids;
    rows := SortRows(rows);
    var counts: map<Transition, nat> := map t | t in {Regressed, Fixed, Removed, Added, StableFail, StablePass} :: Count(rows, t);
    forall t: Transition
      ensures t in counts && counts[t] == Count(rows, t)
    {
      assert t.Regressed? || t.Fixed? || t.Removed? || t.Added? || t.StableFail? || t.StablePass?;
    }
    return Success((rows, counts));
  }

  /******* The stable sort *******/

  /** Behind all rows that are at least as severe. */
  function InsertRow(row: DiffRow, rows: seq<DiffRow>): seq<DiffRow> {
    if rows != [] && Severity(rows[|rows| - 1].transition) > Severity(row.transition)
    then InsertRow(row, rows[..|rows| - 1]) + [rows[|rows| - 1]]
    else rows + [row]
  }

  /** `rows.sort(key=severity)` */
  function SortRows(rows: seq<DiffRow>): seq<DiffRow> {
    if rows == [] then [] else InsertRow(rows[|rows| - 1], SortRows(rows[..|rows| - 1]))
  }

  ghost predicate BySeverity(rows: seq<DiffRow>) {
    forall i, j | 0 <= i < j < |rows| :: Severity(rows[i].transition) <= Severity(rows[j].transition)
  }

  /** The rows of one transition, in order. */
  function Only(rows: seq<DiffRow>, t: Transition): seq<DiffRow> {
    if rows == [] then []
    else Only(rows[..|rows| - 1], t) + (if rows[|rows| - 1].transition == t then [rows[|rows| - 1]] else [])
  }

  lemma {:induction false} OnlyAppend(rows: seq<DiffRow>, row: DiffRow, t: Transition)
    ensures Only(rows + [row], t) == Only(rows, t) + (if row.transition == t then [row] else [])
  {
    assert (rows + [row])[..|rows|] == rows;
  }

  lemma {:induction false} InsertRowContents(row: DiffRow, rows: seq<DiffRow>)
    ensures multiset(InsertRow(row, rows)) == multiset(rows) + multiset{row}
  {
    if rows != [] && Severity(rows[|rows| - 1].transition) > Severity(row.transition) {
      InsertRowContents(row, rows[..|rows| - 1]);
      assert rows == rows[..|rows| - 1] + [rows[|rows| - 1]];
    }
  }

  lemma {:induction false} InsertRowWithin(row: DiffRow, rows: seq<DiffRow>, bound: nat)
    requires Severity(row.transition) <= bound && forall i | 0 <= i < |rows| :: Severity(rows[i].transition) <= bound
    ensures forall i | 0 <= i < |InsertRow(row, rows)| :: Severity(InsertRow(row, rows)[i].transition) <= bound
  {
    if rows != [] && Severity(rows[|rows| - 1].transition) > Severity(row.transition) {
      InsertRowWithin(row, rows[..|rows| - 1], bound);
    }
  }

  lemma {:induction false} InsertRowSorts(row: DiffRow, rows: seq<DiffRow>)
    requires BySeverity(rows)
    ensures BySeverity(InsertRow(row, rows))
  {
    if rows != [] && Severity(rows[|rows| - 1].transition) > Severity(row.transition) {
      InsertRowSorts(row, rows[..|rows| - 1]);
      InsertRowWithin(row, rows[..|rows| - 1], Severity(rows[|rows| - 1].transition));
    }
  }

  /** Inserting keeps every other class, and puts the row last in its own. */
  lemma {:induction false} InsertRowStable(row: DiffRow, rows: seq<DiffRow>, t: Transition)
    ensures Only(InsertRow(row, rows), t) == Only(rows, t) + (if row.transition == t then [row] else [])
  {
    if rows != [] && Severity(rows[|rows| - 1].transition) > Severity(row.transition) {
      var init, last := rows[..|rows| - 1], rows[|rows| - 1];
      InsertRowStable(row, init, t);
      var inner := InsertRow(row, init);
      assert InsertRow(row, rows) == inner + [last];
      OnlyAppend(inner, last, t);
      assert Only(rows, t) == Only(init, t) + (if last.transition == t then [last] else []);
      assert last.transition != row.transition;
      if t == row.transition {
        assert Only(rows, t) == Only(init, t);
      }
    } else {
      OnlyAppend(rows, row, t);
    }
  }

  /** The sort is a stable sort by severity: a permutation, in order of severity, that
      keeps the rows of each transition in their original order. */
  lemma {:induction false} SortIsStable(rows: seq<DiffRow>, t: Transition)
    ensures BySeverity(SortRows(rows)) && multiset(SortRows(rows)) == multiset(rows)
    ensures Only(SortRows(rows), t) == Only(rows, t)
  {
    if rows != [] {
      var init, last := rows[..|rows| - 1], rows[|rows| - 1];
      SortIsStable(init, t);
      InsertRowSorts(last, SortRows(init));
      InsertRowContents(last, SortRows(init));
      InsertRowStable(last, SortRows(init), t);
      assert rows == init + [last];
    }
  }

  ghost predicate SameClasses(a: seq<DiffRow>, b: seq<DiffRow>) {
    forall t :: Only(a, t) == Only(b, t)
  }

  /** No other result satisfies that: two severity-ordered sequences with the same
      classes are equal. */
  lemma {:induction false} StableSortUnique(a: seq<DiffRow>, b: seq<DiffRow>)
    requires BySeverity(a) && BySeverity(b) && SameClasses(a, b)
    ensures a == b
  {
    if a != [] {
      SameLast(a, b);
      var m, n := a[..|a| - 1], b[..|b| - 1];
      SameInits(m, n, a[|a| - 1], a, b);
      StableSortUnique(m, n);
    } else if b != [] {
      SameLast(b, a);
    }
  }

  lemma SameLast(a: seq<DiffRow>, b: seq<DiffRow>)
    requires BySeverity(a) && BySeverity(b) && SameClasses(a, b) && a != []
    ensures b != [] && a[|a| - 1] == b[|b| - 1]
  {
    var x := a[|a| - 1];
    assert Only(a, x.transition) == Only(b, x.transition);
    LastInClass(a);
    LastOfClass(b, x.transition);
    var y := b[|b| - 1];
    assert Only(a, y.transition) == Only(b, y.transition);
    LastInClass(b);
    LastOfClass(a, y.transition);
    assert x.transition == y.transition;
  }

  lemma SameInits(m: seq<DiffRow>, n: seq<DiffRow>, x: DiffRow, a: seq<DiffRow>, b: seq<DiffRow>)
    requires a == m + [x] && b == n + [x] && SameClasses(a, b)
    ensures SameClasses(m, n)
  {
    forall t
      ensures Only(m, t) == Only(n, t)
    {
      assert Only(a, t) == Only(b, t);
      OnlyAppend(m, x, t);
      OnlyAppend(n, x, t);
      EqualPrefixes(Only(m, t), Only(n, t), if x.transition == t then [x] else []);
    }
  }

  lemma EqualPrefixes<T>(s: seq<T>, t: seq<T>, suffix: seq<T>)
    requires s + suffix == t + suffix
    ensures s == t
  {
    assert s == (s + suffix)[..|s|] && t == (t + suffix)[..|t|];
  }

  lemma LastInClass(rows: seq<DiffRow>)
    requires rows != []
    ensures var kind := Only(rows, rows[|rows| - 1].transition);
      kind != [] && kind[|kind| - 1] == rows[|rows| - 1]
  {
  }

  lemma {:induction false} LastOfClass(rows: seq<DiffRow>, t: Transition)
    requires BySeverity(rows) && Only(rows, t) != []
    ensures rows != [] && Severity(t) <= Severity(rows[|rows| - 1].transition)
  {
    if rows[|rows| - 1].transition != t {
      LastOfClass(rows[..|rows| - 1], t);
    }
  }

  /******* Counts *******/

  function Count(rows: seq<DiffRow>, t: Transition): nat {
    |Only(rows, t)|
  }

  lemma {:induction false} UnionIdsMember(left: seq<CaseResult>, right: seq<CaseResult>, id: string)
    ensures id in UnionIds(left, right) <==> id in Ids(left) + Ids(right)
  {
    if right != [] {
      UnionIdsMember(left, right[..|right| - 1], id);
    } else if left != [] {
      UnionIdsMember(left[..|left| - 1], [], id);
    }
  }

  lemma {:induction false} UnionIdsDistinct(left: seq<CaseResult>, right: seq<CaseResult>)
    requires DistinctIds(left) && DistinctIds(right)
    ensures Distinct(UnionIds(left, right))
  {
    if right != [] {
      var n := |right| - 1;
      DistinctInit(right);
      UnionIdsDistinct(left, right[..n]);
      UnionIdsMember(left, right[..n], right[n].caseId);
    } else if left != [] {
      var n := |left| - 1;
      DistinctInit(left);
      UnionIdsDistinct(left[..n], []);
      UnionIdsMember(left[..n], [], left[n].caseId);
    }
  }

  /** One case is listed before another. */
  ghost predicate Before(results: seq<CaseResult>, id: string, later: string) {
    exists i, j | 0 <= i < j < |results| :: results[i].caseId == id && results[j].caseId == later
  }

  /** The left side's cases come first, in its order; then, in its order, the cases
      only the right side has. */
  lemma {:induction false} UnionIdsInOrder(left: seq<CaseResult>, right: seq<CaseResult>)
    ensures |left| <= |UnionIds(left, right)|
    ensures forall a | 0 <= a < |left| :: UnionIds(left, right)[a] == left[a].caseId
    ensures forall a | |left| <= a < |UnionIds(left, right)| :: UnionIds(left, right)[a] in Ids(right) - Ids(left)
    ensures forall a, b | |left| <= a < b < |UnionIds(left, right)| ::
              Before(right, UnionIds(left, right)[a], UnionIds(left, right)[b])
  {
    if right != [] {
      var n := |right| - 1;
      var earlier, ids := UnionIds(left, right[..n]), UnionIds(left, right);
      UnionIdsInOrder(left, right[..n]);
      forall a, b | |left| <= a < b < |ids|
        ensures Before(right, ids[a], ids[b])
      {
        if b < |earlier| {
          BeforeAppend(right, earlier[a], earlier[b]);
        } else {
          IdsExact(right[..n], earlier[a]);
          var i :| 0 <= i < n && right[..n][i].caseId == earlier[a];
          assert right[i].caseId == ids[a] && right[n].caseId == ids[b];
        }
      }
    } else if left != [] {
      UnionIdsInOrder(left[..|left| - 1], []);
    }
  }

  lemma BeforeAppend(results: seq<CaseResult>, id: string, later: string)
    requires results != [] && Before(results[..|results| - 1], id, later)
    ensures Before(results, id, later)
  {
    var init := results[..|results| - 1];
    var i, j :| 0 <= i < j < |init| && init[i].caseId == id && init[j].caseId == later;
    assert results[i].caseId == id && results[j].caseId == later;
  }

  /** Those of some ids that are in a transition. */
  function ClassOf(left: seq<CaseResult>, right: seq<CaseResult>, ids: set<string>, t: Transition): set<string> {
    set id | id in ids && Classify(left, right, id) == t
  }

  /** The case ids in a transition. */
  function Class(left: seq<CaseResult>, right: seq<CaseResult>, t: Transition): set<string> {
    ClassOf(left, right, Ids(left) + Ids(right), t)
  }

  function AsSet(ids: seq<string>): set<string> {
    set id | id in ids
  }

  lemma ClassAdd(left: seq<CaseResult>, right: seq<CaseResult>, ids: set<string>, id: string, t: Transition)
    ensures ClassOf(left, right, ids + {id}, t)
         == ClassOf(left, right, ids, t) + (if Classify(left, right, id) == t then {id} else {})
  {
  }

  lemma ClassGrows(left: seq<CaseResult>, right: seq<CaseResult>, init: seq<string>, id: string, ids: seq<string>, t: Transition)
    requires id !in init && ids == init + [id]
    ensures |ClassOf(left, right, AsSet(ids), t)|
         == |ClassOf(left, right, AsSet(init), t)| + (if Classify(left, right, id) == t then 1 else 0)
  {
    assert AsSet(ids) == AsSet(init) + {id};
    ClassAdd(left, right, AsSet(init), id, t);
    assert id !in ClassOf(left, right, AsSet(init), t);
  }

  lemma {:induction false} CountIsClassSize(left: seq<CaseResult>, right: seq<CaseResult>, ids: seq<string>, t: Transition)
    requires Distinct(ids)
    ensures Count(RowsOf(left, right, ids), t) == |ClassOf(left, right, AsSet(ids), t)|
  {
    if ids == [] {
      assert ClassOf(left, right, AsSet(ids), t) == {};
    } else {
      var init, id := ids[..|ids| - 1], ids[|ids| - 1];
      assert ids == init + [id];
      CountIsClassSize(left, right, init, t);
      OnlyAppend(RowsOf(left, right, init), RowOf(left, right, id), t);
      ClassGrows(left, right, init, id, ids, t);
    }
  }

  /** Each count of the report is the number of case ids in that transition. */
  lemma CountsAreClassSizes(left: seq<CaseResult>, right: seq<CaseResult>, t: Transition)
    requires DistinctIds(left) && DistinctIds(right)
    ensures Count(Report(left, right), t) == |Class(left, right, t)|
  {
    var ids := UnionIds(left, right);
    UnionIdsDistinct(left, right);
    SortIsStable(RowsOf(left, right, ids), t);
    CountIsClassSize(left, right, ids, t);
    assert AsSet(ids) == Ids(left) + Ids(right) by {
      forall id
        ensures id in AsSet(ids) <==> id in Ids(left) + Ids(right)
      { UnionIdsMember(left, right, id); }
    }
  }

  lemma UnionSize<T>(a: set<T>, b: set<T>)
    requires a !! b
    ensures |a + b| == |a| + |b|
  {
  }

  lemma SixClasses(left: seq<CaseResult>, right: seq<CaseResult>, ids: set<string>)
    ensures |ClassOf(left, right, ids, Regressed)| + |ClassOf(left, right, ids, Fixed)|
          + |ClassOf(left, right, ids, Removed)| + |ClassOf(left, right, ids, Added)|
          + |ClassOf(left, right, ids, StableFail)| + |ClassOf(left, right, ids, StablePass)| == |ids|
  {
    var a, b, c := ClassOf(left, right, ids, Regressed), ClassOf(left, right, ids, Fixed), ClassOf(left, right, ids, Removed);
    var d, e, f := ClassOf(left, right, ids, Added), ClassOf(left, right, ids, StableFail), ClassOf(left, right, ids, StablePass);
    UnionSize(a, b);
    UnionSize(a + b, c);
    UnionSize(a + b + c, d);
    UnionSize(a + b + c + d, e);
    UnionSize(a + b + c + d + e, f);
    assert ids == a + b + c + d + e + f;
  }

  /** Six disjoint classes cover the union of the ids. */
  lemma {:induction false} CountsSumToUnion(left: seq<CaseResult>, right: seq<CaseResult>)
    requires DistinctIds(left) && DistinctIds(right)
    ensures var rows := Report(left, right);
      Count(rows, Regressed) + Count(rows, Fixed) + Count(rows, Removed) + Count(rows, Added)
      + Count(rows, StableFail) + Count(rows, StablePass) == |Ids(left) + Ids(right)|
  {
    CountsAreClassSizes(left, right, Regressed);
    CountsAreClassSizes(left, right, Fixed);
    CountsAreClassSizes(left, right, Removed);
    CountsAreClassSizes(left, right, Added);
    CountsAreClassSizes(left, right, StableFail);
    CountsAreClassSizes(left, right, StablePass);
    SixClasses(left, right, Ids(left) + Ids(right));
  }

  function Swapped(t: Transition): Transition {
    match t
    case Regressed => Fixed
    case Fixed => Regressed
    case Removed => Added
    case Added => Removed
    case _ => t
  }

  /** Swapping the sides swaps regressed with fixed and added with removed. */
  lemma SwappingSidesSwapsCounts(left: seq<CaseResult>, right: seq<CaseResult>, t: Transition)
    requires DistinctIds(left) && DistinctIds(right)
    ensures Count(Report(left, right), t) == Count(Report(right, left), Swapped(t))
  {
    CountsAreClassSizes(left, right, t);
    CountsAreClassSizes(right, left, Swapped(t));
    SwappingSidesSwapsClasses(left, right, t);
  }

  lemma SwappingSidesSwapsClasses(left: seq<CaseResult>, right: seq<CaseResult>, t: Transition)
    ensures Class(left, right, t) == Class(right, left, Swapped(t))
  {
    assert Ids(left) + Ids(right) == Ids(right) + Ids(left);
    forall id | id in Ids(left) + Ids(right)
      ensures Classify(left, right, id) == t <==> Classify(right, left, id) == Swapped(t)
    {
      SwappingSidesSwapsTransition(Lookup(left, id), Lookup(right, id), t);
    }
  }

  lemma SwappingSidesSwapsTransition(left: Option<CaseResult>, right: Option<CaseResult>, t: Transition)
    requires left.Some? || right.Some?
    ensures TransitionOf(left, right) == t <==> TransitionOf(right, left) == Swapped(t)
  {
  }

  /******* Conservation of passes *******/

  function PassedIds(results: seq<CaseResult>): set<string> {
    if results == [] then {}
    else PassedIds(results[..|results| - 1])
         + (if results[|results| - 1].passed then {results[|results| - 1].caseId} else {})
  }

  lemma {:induction false} PassedWithin(results: seq<CaseResult>, id: string)
    requires id in PassedIds(results)
    ensures id in Ids(results)
  {
    if id in PassedIds(results[..|results| - 1]) {
      PassedWithin(results[..|results| - 1], id);
    }
  }

  lemma {:induction false} PassedCount(results: seq<CaseResult>)
    requires DistinctIds(results)
    ensures CountPassed(results) == |PassedIds(results)|
  {
    if results != [] {
      var init, id := results[..|results| - 1], results[|results| - 1].caseId;
      DistinctInit(results);
      PassedCount(init);
      if id in PassedIds(init) {
        PassedWithin(init, id);
      }
    }
  }

  lemma {:induction false} PassedLookup(results: seq<CaseResult>, id: string)
    requires DistinctIds(results)
    ensures id in PassedIds(results) <==> Lookup(results, id).Some? && Lookup(results, id).value.passed
  {
    if results != [] {
      var init := results[..|results| - 1];
      DistinctInit(results);
      PassedLookup(init, id);
      if id in PassedIds(init) {
        PassedWithin(init, id);
      }
    }
  }

  /** Passing cases that the other side does not have at all. */
  function PassedOnly(results: seq<CaseResult>, other: seq<CaseResult>): set<string> {
    PassedIds(results) - Ids(other)
  }

  lemma {:induction false} PassedClass(side: seq<CaseResult>, other: seq<CaseResult>, id: string)
    requires DistinctIds(side)
    ensures id in PassedIds(side) <==>
      id in Class(side, other, Regressed) || id in Class(side, other, StablePass) || id in PassedOnly(side, other)
  {
    PassedLookup(side, id);
    if id !in Ids(side) + Ids(other) {
      assert id !in PassedIds(side);
    } else {
      assert id in Ids(side) <==> Lookup(side, id).Some?;
      assert id in Ids(other) <==> Lookup(other, id).Some?;
    }
  }

  /** The passes of one side are its stable passes, those it gained or lost against
      the other side, and those of cases only it has. */
  lemma {:induction false} PassesOfSide(side: seq<CaseResult>, other: seq<CaseResult>, lost: set<string>, stable: set<string>)
    requires DistinctIds(side)
    requires lost == Class(side, other, Regressed) && stable == Class(side, other, StablePass)
    ensures |PassedIds(side)| == |lost| + |stable| + |PassedOnly(side, other)|
  {
    forall id
      ensures id in PassedIds(side) <==> id in lost + stable + PassedOnly(side, other)
    {
      PassedClass(side, other, id);
    }
    assert PassedIds(side) == lost + stable + PassedOnly(side, other);
    UnionSize(lost, stable);
    UnionSize(lost + stable, PassedOnly(side, other));
  }

  /** Passes move only through the transitions: the right side's passes exceed the
      left side's by fixed minus regressed, plus the passing cases only it has, minus
      those only the left side has. */
  lemma {:induction false} PassesAreConserved(left: seq<CaseResult>, right: seq<CaseResult>)
    requires DistinctIds(left) && DistinctIds(right)
    ensures var rows := Report(left, right);
      CountPassed(right) - CountPassed(left)
      == Count(rows, Fixed) - Count(rows, Regressed) + |PassedOnly(right, left)| - |PassedOnly(left, right)|
  {
    PassedCount(left);
    PassedCount(right);
    PassesOfSide(left, right, Class(left, right, Regressed), Class(left, right, StablePass));
    PassesOfSide(right, left, Class(right, left, Regressed), Class(right, left, StablePass));
    CountsAreClassSizes(left, right, Regressed);
    CountsAreClassSizes(left, right, StablePass);
    CountsAreClassSizes(right, left, Regressed);
    CountsAreClassSizes(right, left, StablePass);
    SwappingSidesSwapsCounts(left, right, Fixed);
    SwappingSidesSwapsCounts(left, right, StablePass);
  }

  /******* What a report says *******/

  lemma {:induction false} RowsAreOf(left: seq<CaseResult>, right: seq<CaseResult>, ids: seq<string>)
    ensures |RowsOf(left, right, ids)| == |ids|
    ensures forall k | 0 <= k < |ids| :: RowsOf(left, right, ids)[k] == RowOf(left, right, ids[k])
  {
    if ids != [] {
      RowsAreOf(left, right, ids[..|ids| - 1]);
    }
  }

  lemma {:induction false} LookupFinds(results: seq<CaseResult>, id: string)
    ensures Lookup(results, id).Some? ==> Lookup(results, id).value in results
    ensures Lookup(results, id).None? ==> forall i | 0 <= i < |results| :: results[i].caseId != id
  {
    if results != [] {
      LookupFinds(results[..|results| - 1], id);
    }
  }

  /** A side of a row: that evaluation's result of the case, or nothing if it has none. */
  ghost predicate SideOf(side: Option<CaseResult>, results: seq<CaseResult>, id: string) {
    match side
    case Some(r) => r in results && r.caseId == id
    case None => forall i | 0 <= i < |results| :: results[i].caseId != id
  }

  /** Each row of a report shows both results of its case, and names how they differ. */
  lemma RowSays(left: seq<CaseResult>, right: seq<CaseResult>, row: DiffRow)
    requires row in Report(left, right)
    ensures SideOf(row.left, left, row.caseId) && SideOf(row.right, right, row.caseId)
    ensures row.transition == Added <==> row.left.None?
    ensures row.transition == Removed <==> row.left.Some? && row.right.None?
    ensures row.left.Some? && row.right.Some? ==>
      && (row.transition == Regressed <==> row.left.value.passed && !row.right.value.passed)
      && (row.transition == Fixed <==> !row.left.value.passed && row.right.value.passed)
      && (row.transition == StablePass <==> row.left.value.passed && row.right.value.passed)
      && (row.transition == StableFail <==> !row.left.value.passed && !row.right.value.passed)
  {
    var ids := UnionIds(left, right);
    var rows := RowsOf(left, right, ids);
    RowsAreOf(left, right, ids);
    SortIsStable(rows, row.transition);
    assert row in multiset(rows);
    var k :| 0 <= k < |rows| && rows[k] == row;
    LookupFinds(left, ids[k]);
    LookupFinds(right, ids[k]);
  }

  /** Every case of either side has a row. */
  lemma EveryCaseHasARow(left: seq<CaseResult>, right: seq<CaseResult>, result: CaseResult)
    requires result in left || result in right
    ensures exists row :: row in Report(left, right) && row.caseId == result.caseId
  {
    var ids := UnionIds(left, right);
    var rows := RowsOf(left, right, ids);
    IdsExact(left, result.caseId);
    IdsExact(right, result.caseId);
    UnionIdsMember(left, right, result.caseId);
    RowsAreOf(left, right, ids);
    SortIsStable(rows, Added);
    var k :| 0 <= k < |ids| && ids[k] == result.caseId;
    assert rows[k] in multiset(SortRows(rows));
  }

  /** Regressions come first; then, in this order, what was fixed, removed and added,
      what still fails, and what still passes. */
  lemma ReportOrder(left: seq<CaseResult>, right: seq<CaseResult>, i: nat, j: nat)
    requires i < j < |Report(left, right)|
    ensures var first, second := Report(left, right)[i].transition, Report(left, right)[j].transition;
      && (second == Regressed ==> first == Regressed)
      && (second == Fixed ==> first == Regressed || first == Fixed)
      && (second == Removed ==> first == Regressed || first == Fixed || first == Removed)
      && (second == Added ==> first != StableFail && first != StablePass)
      && (second == StableFail ==> first != StablePass)
  {
    SortIsStable(RowsOf(left, right, UnionIds(left, right)), Added);
  }

  /******* Evaluations of one dataset *******/

  lemma ResultHasCaseId(cases: seq<Case>, run: CaseRunner, n: nat, i: nat)
    requires i < n <= |cases|
    ensures ResultsOf(Normalized(cases), run, n)[i].caseId == CaseIds(cases)[i] == CaseId(cases[i], i)
  {
    var c := Normalized(cases)[i];
    assert c == cases[i].(id := Some(CaseId(cases[i], i)));
    assert ResultsOf(Normalized(cases), run, n)[i] == ResultOf(c, run(c, i));
  }

  /** Evaluations of a dataset inherit its distinct ids, whenever they stopped. */
  lemma EvaluationIdsDistinct(cases: seq<Case>, run: CaseRunner, n: nat)
    requires n <= |cases| && Distinct(CaseIds(cases))
    ensures DistinctIds(ResultsOf(Normalized(cases), run, n))
  {
    forall i | 0 <= i < n
      ensures ResultsOf(Normalized(cases), run, n)[i].caseId == CaseIds(cases)[i]
    {
      ResultHasCaseId(cases, run, n, i);
    }
  }

  lemma {:induction false} SameIds(a: seq<CaseResult>, b: seq<CaseResult>)
    requires |a| == |b| && forall i | 0 <= i < |a| :: a[i].caseId == b[i].caseId
    ensures Ids(a) == Ids(b)
  {
    if a != [] {
      SameIds(a[..|a| - 1], b[..|b| - 1]);
    }
  }

  /** Two completed evaluations of one dataset add and remove nothing, and differ in
      passes by exactly fixed minus regressed. */
  lemma CompletedEvaluationsDiffer(cases: seq<Case>, runLeft: CaseRunner, runRight: CaseRunner)
    requires Distinct(CaseIds(cases))
    ensures var left := ResultsOf(Normalized(cases), runLeft, |cases|);
      var right := ResultsOf(Normalized(cases), runRight, |cases|);
      var rows := Report(left, right);
      && CountPassed(right) - CountPassed(left) == Count(rows, Fixed) - Count(rows, Regressed)
      && Count(rows, Added) == 0 && Count(rows, Removed) == 0
  {
    var left := ResultsOf(Normalized(cases), runLeft, |cases|);
    var right := ResultsOf(Normalized(cases), runRight, |cases|);
    EvaluationIdsDistinct(cases, runLeft, |cases|);
    EvaluationIdsDistinct(cases, runRight, |cases|);
    forall i | 0 <= i < |cases|
      ensures left[i].caseId == right[i].caseId
    {
      ResultHasCaseId(cases, runLeft, |cases|, i);
      ResultHasCaseId(cases, runRight, |cases|, i);
    }
    SameIds(left, right);
    NothingAdded(left, right);
    PassesAreConserved(left, right);
  }

  lemma {:induction false} NothingAdded(left: seq<CaseResult>, right: seq<CaseResult>)
    requires DistinctIds(left) && DistinctIds(right) && Ids(left) == Ids(right)
    ensures Count(Report(left, right), Added) == 0 && Count(Report(left, right), Removed) == 0
    ensures PassedOnly(left, right) == {} && PassedOnly(right, left) == {}
  {
    CountsAreClassSizes(left, right, Added);
    CountsAreClassSizes(left, right, Removed);
    assert Class(left, right, Added) == {} && Class(left, right, Removed) == {};
    forall id | id in PassedIds(left)
      ensures id in Ids(left)
    { PassedWithin(left, id); }
    forall id | id in PassedIds(right)
      ensures id in Ids(right)
    { PassedWithin(right, id); }
  }
}
