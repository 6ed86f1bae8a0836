/**
  Evaluations: the job that runs a dataset case by case while it may be cancelled,
  and the release gate.  Durations and costs are reals, so rounding is left out;
  running a case is an oracle on the case and its position.
  */
module Evaluation {
  import opened Prelude
  import opened Datasets

  datatype CaseResult = CaseResult(caseId: string, passed: bool, duration: real, cost: real)

  datatype Status = Queued | Running | Completed | Cancelled

  datatype Thresholds = Thresholds(passRateMin: Option<real>, maxCost: Option<real>, maxP95: Option<real>)

  /******* Sorting and the 95th percentile *******/

  ghost predicate Sorted(s: seq<real>) {
    forall i, j | 0 <= i < j < |s| :: s[i] <= s[j]
  }

  function Insert(x: real, s: seq<real>): seq<real> {
    if s == [] || x <= s[0] then [x] + s else [s[0]] + Insert(x, s[1..])
  }

  /** `sorted(...)` */
  function Sort(s: seq<real>): seq<real> {
    if s == [] then [] else Insert(s[0], Sort(s[1..]))
  }

  lemma {:induction false} InsertContents(x: real, s: seq<real>)
    ensures multiset(Insert(x, s)) == multiset{x} + multiset(s)
    ensures |Insert(x, s)| == |s| + 1
  {
    if s != [] && x > s[0] {
      InsertContents(x, s[1..]);
      assert s == [s[0]] + s[1..];
    }
  }

  lemma {:induction false} InsertSorts(x: real, s: seq<real>)
    requires Sorted(s)
    ensures Sorted(Insert(x, s))
  {
    if s != [] && x > s[0] {
      InsertSorts(x, s[1..]);
      InsertAbove(s[0], x, s[1..]);
    }
  }

  lemma {:induction false} InsertAbove(bound: real, x: real, s: seq<real>)
    requires bound <= x && forall i | 0 <= i < |s| :: bound <= s[i]
    ensures forall i | 0 <= i < |Insert(x, s)| :: bound <= Insert(x, s)[i]
  {
    if s != [] && x > s[0] {
      InsertAbove(bound, x, s[1..]);
    }
  }

  lemma {:induction false} SortSorts(s: seq<real>)
    ensures Sorted(Sort(s)) && multiset(Sort(s)) == multiset(s) && |Sort(s)| == |s|
  {
    if s != [] {
      SortSorts(s[1..]);
      InsertSorts(s[0], Sort(s[1..]));
      InsertContents(s[0], Sort(s[1..]));
      assert s == [s[0]] + s[1..];
    }
  }

  lemma DropFirst(s: seq<real>)
    requires s != []
    ensures multiset(s[1..]) == multiset(s) - multiset{s[0]}
  {
    assert s == [s[0]] + s[1..];
  }

  /** Sorting forgets the order of its input, and only that. */
  lemma {:induction false} SortedUnique(s: seq<real>, t: seq<real>)
    requires Sorted(s) && Sorted(t) && multiset(s) == multiset(t)
    ensures s == t
  {
    assert |s| == |multiset(s)| == |multiset(t)| == |t|;
    if s != [] {
      assert s[0] == t[0] by {
        assert s[0] in multiset(t) && t[0] in multiset(s);
      }
      DropFirst(s);
      DropFirst(t);
      SortedUnique(s[1..], t[1..]);
    }
  }

  /** `min(len - 1, int(len * 0.95))` */
  function P95Index(n: nat): (k: nat)
    requires n > 0
    ensures k < n
  {
    if 95 * n / 100 < n - 1 then 95 * n / 100 else n - 1
  }

  function P95(s: seq<real>): real
    requires s != []
  {
    SortSorts(s);
    Sort(s)[P95Index(|s|)]
  }

  function CountAtMost(s: seq<real>, x: real): nat {
    if s == [] then 0 else (if s[0] <= x then 1 else 0) + CountAtMost(s[1..], x)
  }

  function CountAtLeast(s: seq<real>, x: real): nat {
    if s == [] then 0 else (if s[0] >= x then 1 else 0) + CountAtLeast(s[1..], x)
  }

  lemma {:induction false} CountsAreOrderFree(s: seq<real>, x: real, y: real)
    ensures CountAtMost(Insert(y, s), x) == CountAtMost(s, x) + (if y <= x then 1 else 0)
    ensures CountAtLeast(Insert(y, s), x) == CountAtLeast(s, x) + (if y >= x then 1 else 0)
  {
    if s == [] || y <= s[0] {
      assert ([y] + s)[1..] == s;
    } else {
      CountsAreOrderFree(s[1..], x, y);
      assert ([s[0]] + Insert(y, s[1..]))[1..] == Insert(y, s[1..]);
    }
  }

  lemma {:induction false} CountsOfSort(s: seq<real>, x: real)
    ensures CountAtMost(Sort(s), x) == CountAtMost(s, x) && CountAtLeast(Sort(s), x) == CountAtLeast(s, x)
  {
    if s != [] {
      CountsOfSort(s[1..], x);
      CountsAreOrderFree(Sort(s[1..]), x, s[0]);
    }
  }

  lemma {:induction false} CountsInSorted(s: seq<real>, k: nat, x: real)
    requires Sorted(s) && k < |s| && x == s[k]
    ensures CountAtMost(s, x) >= k + 1 && CountAtLeast(s, x) >= |s| - k
  {
    if k > 0 {
      CountsInSorted(s[1..], k - 1, x);
    } else {
      AllAtLeast(s, x);
    }
  }

  lemma {:induction false} AllAtLeast(s: seq<real>, x: real)
    requires forall i | 0 <= i < |s| :: s[i] >= x
    ensures CountAtLeast(s, x) == |s|
  {
    if s != [] {
      AllAtLeast(s[1..], x);
    }
  }

  /** The chosen sample depends only on the multiset, more than 95% of the samples
      are at most it, at least n - floor(95n/100) are at least it, and the `min`
      never bites. */
  lemma {:induction false} P95IsThePercentile(s: seq<real>)
    requires s != []
    ensures P95(s) in s
    ensures 100 * CountAtMost(s, P95(s)) > 95 * |s|
    ensures CountAtLeast(s, P95(s)) >= |s| - 95 * |s| / 100
    ensures P95Index(|s|) == 95 * |s| / 100
  {
    SortSorts(s);
    var k := P95Index(|s|);
    assert k == 95 * |s| / 100;
    CountsInSorted(Sort(s), k, P95(s));
    CountsOfSort(s, P95(s));
    assert Sort(s)[k] in multiset(s);
  }

  lemma P95IgnoresOrder(s: seq<real>, t: seq<real>)
    requires s != [] && multiset(s) == multiset(t)
    ensures t != [] && P95(t) == P95(s)
  {
    assert |s| == |multiset(s)| == |multiset(t)| == |t|;
    SortSorts(s);
    SortSorts(t);
    SortedUnique(Sort(s), Sort(t));
  }

  /******* The gate *******/

  datatype Reason = PassRateBelow | CostAbove | LatencyAbove

  datatype Gate = NoVerdict | Verdict(passed: bool, reasons: seq<Reason>)

  function CountPassed(results: seq<CaseResult>): nat {
    if results == [] then 0 else CountPassed(results[..|results| - 1]) + (if results[|results| - 1].passed then 1 else 0)
  }

  function TotalCost(results: seq<CaseResult>): real {
    if results == [] then 0.0 else TotalCost(results[..|results| - 1]) + results[|results| - 1].cost
  }

  function Durations(results: seq<CaseResult>): seq<real> {
    seq(|results|, i requires 0 <= i < |results| => results[i].duration)
  }

  function PassRate(results: seq<CaseResult>): real
    requires results != []
  {
    CountPassed(results) as real / |results| as real
  }

  predicate Configured(t: Thresholds) {
    t.passRateMin.Some? || t.maxCost.Some? || t.maxP95.Some?
  }

  /** `_evaluation_gate` */
  function EvaluationGate(results: seq<CaseResult>, t: Thresholds): Gate {
    if results == [] || !Configured(t) then NoVerdict
    else
      var reasons :=
        (if t.passRateMin.Some? && PassRate(results) < t.passRateMin.value then [PassRateBelow] else [])
        + (if t.maxCost.Some? && TotalCost(results) > t.maxCost.value then [CostAbove] else [])
        + (if t.maxP95.Some? && P95(Durations(results)) > t.maxP95.value then [LatencyAbove] else []);
      Verdict(reasons == [], reasons)
  }

  /** Every threshold that is set is met. */
  ghost predicate Meets(results: seq<CaseResult>, t: Thresholds)
    requires results != []
  {
    && (t.passRateMin.Some? ==> PassRate(results) >= t.passRateMin.value)
    && (t.maxCost.Some? ==> TotalCost(results) <= t.maxCost.value)
    && (t.maxP95.Some? ==> P95(Durations(results)) <= t.maxP95.value)
  }

  /** Each reason at most once: the pass rate, then the cost, then the latency. */
  ghost predicate InOrder(reasons: seq<Reason>) {
    forall i, j | 0 <= i < j < |reasons| ::
      reasons[i] != reasons[j] && reasons[j] != PassRateBelow && reasons[i] != LatencyAbove
  }

  lemma {:induction false} GatePassesExactlyWhenMet(results: seq<CaseResult>, t: Thresholds)
    requires results != [] && Configured(t)
    ensures EvaluationGate(results, t).Verdict?
    ensures EvaluationGate(results, t).passed <==> Meets(results, t)
    ensures EvaluationGate(results, t).passed <==> EvaluationGate(results, t).reasons == []
    ensures InOrder(EvaluationGate(results, t).reasons)
    ensures PassRateBelow in EvaluationGate(results, t).reasons <==>
              t.passRateMin.Some? && PassRate(results) < t.passRateMin.value
    ensures CostAbove in EvaluationGate(results, t).reasons <==> t.maxCost.Some? && TotalCost(results) > t.maxCost.value
    ensures LatencyAbove in EvaluationGate(results, t).reasons <==>
              t.maxP95.Some? && P95(Durations(results)) > t.maxP95.value
  {
  }

  ghost predicate LooserMinimum(a: Option<real>, b: Option<real>) {
    b.Some? ==> a.Some? && b.value <= a.value
  }

  ghost predicate LooserMaximum(a: Option<real>, b: Option<real>) {
    b.Some? ==> a.Some? && b.value >= a.value
  }

  /** Loosening or dropping thresholds never turns a pass into a failure. */
  lemma LooseningKeepsPass(results: seq<CaseResult>, t: Thresholds, looser: Thresholds)
    requires EvaluationGate(results, t).Verdict? && EvaluationGate(results, t).passed
    requires LooserMinimum(t.passRateMin, looser.passRateMin)
    requires LooserMaximum(t.maxCost, looser.maxCost) && LooserMaximum(t.maxP95, looser.maxP95)
    ensures EvaluationGate(results, looser).Verdict? ==> EvaluationGate(results, looser).passed
  {
    GatePassesExactlyWhenMet(results, t);
    if Configured(looser) {
      GatePassesExactlyWhenMet(results, looser);
    }
  }

  lemma {:induction false} TotalsOfConcat(s: seq<CaseResult>, t: seq<CaseResult>)
    ensures CountPassed(s + t) == CountPassed(s) + CountPassed(t)
    ensures TotalCost(s + t) == TotalCost(s) + TotalCost(t)
    ensures Durations(s + t) == Durations(s) + Durations(t)
  {
    if t == [] {
      assert s + t == s;
    } else {
      var n := |t| - 1;
      TotalsOfConcat(s, t[..n]);
      assert (s + t)[..|s + t| - 1] == s + t[..n];
    }
  }

  /** One case moved to the end. */
  lemma {:induction false} MovingOneLast(before: seq<CaseResult>, x: CaseResult, after: seq<CaseResult>, s: seq<CaseResult>,
                                         moved: seq<CaseResult>)
    requires s == before + [x] + after && moved == before + after + [x]
    ensures CountPassed(s) == CountPassed(moved) && TotalCost(s) == TotalCost(moved)
    ensures multiset(Durations(s)) == multiset(Durations(moved))
  {
    TotalsOfConcat(before + [x], after);
    TotalsOfConcat(before, [x]);
    TotalsOfConcat(before + after, [x]);
    TotalsOfConcat(before, after);
  }

  lemma MultisetOfSplit(before: seq<CaseResult>, x: CaseResult, after: seq<CaseResult>, init: seq<CaseResult>)
    requires multiset(init + [x]) == multiset(before + [x] + after)
    ensures multiset(init) == multiset(before + after)
  {
    assert multiset(init) == multiset(init + [x]) - multiset{x};
    assert multiset(before + after) == multiset(before + [x] + after) - multiset{x};
  }

  lemma {:induction false} TotalsIgnoreOrder(a: seq<CaseResult>, b: seq<CaseResult>)
    requires multiset(a) == multiset(b)
    ensures CountPassed(a) == CountPassed(b) && TotalCost(a) == TotalCost(b)
    ensures multiset(Durations(a)) == multiset(Durations(b))
  {
    assert |a| == |multiset(a)| == |multiset(b)| == |b|;
    if a != [] {
      var init, x := a[..|a| - 1], a[|a| - 1];
      assert a == init + [x];
      assert x in multiset(b);
      var j :| 0 <= j < |b| && b[j] == x;
      var before, after := b[..j], b[j + 1..];
      assert b == before + [x] + after;
      MultisetOfSplit(before, x, after, init);
      TotalsIgnoreOrder(init, before + after);
      TotalsOfConcat(init, [x]);
      TotalsOfConcat(before + after, [x]);
      MovingOneLast(before, x, after, b, before + after + [x]);
    }
  }

  /** The verdict and its reasons do not depend on the order of the cases. */
  lemma GateIgnoresOrder(a: seq<CaseResult>, b: seq<CaseResult>, t: Thresholds)
    requires multiset(a) == multiset(b)
    ensures EvaluationGate(a, t) == EvaluationGate(b, t)
  {
    TotalsIgnoreOrder(a, b);
    assert |a| == |multiset(a)| == |multiset(b)| == |b|;
    if a != [] {
      P95IgnoresOrder(Durations(a), Durations(b));
      assert PassRate(a) == PassRate(b);
    }
  }

  /******* The job *******/

  /** What running a case gives: the matcher's answer and the run's totals. */
  datatype Outcome = Outcome(passed: bool, duration: real, cost: real)

  type CaseRunner = (Case, nat) -> Outcome

  function ResultOf(c: Case, outcome: Outcome): CaseResult {
    CaseResult(if c.id.Some? then c.id.value else "", outcome.passed, outcome.duration, outcome.cost)
  }

  /** The results of the first `n` cases, in dataset order. */
  function ResultsOf(cases: seq<Case>, run: CaseRunner, n: nat): (results: seq<CaseResult>)
    requires n <= |cases|
    ensures |results| == n
  {
    seq(n, i requires 0 <= i < n => ResultOf(cases[i], run(cases[i], i)))
  }

  /** The cases among the first `n` whose runs pass. */
  function Passing(cases: seq<Case>, run: CaseRunner, n: nat): set<nat>
    requires n <= |cases|
  {
    set i: nat | i < n && run(cases[i], i).passed
  }

  lemma OneMorePassing(cases: seq<Case>, run: CaseRunner, n: nat)
    requires n < |cases|
    ensures |Passing(cases, run, n + 1)| == |Passing(cases, run, n)| + (if run(cases[n], n).passed then 1 else 0)
  {
    assert Passing(cases, run, n + 1) == Passing(cases, run, n) + (if run(cases[n], n).passed then {n} else {});
  }

  /** The count of passes counts the cases that pass. */
  lemma {:induction false} CountOfPassingCases(cases: seq<Case>, run: CaseRunner, n: nat)
    requires n <= |cases|
    ensures CountPassed(ResultsOf(cases, run, n)) == |Passing(cases, run, n)|
  {
    if n > 0 {
      CountOfPassingCases(cases, run, n - 1);
      OneMorePassing(cases, run, n - 1);
      assert ResultsOf(cases, run, n)[..n - 1] == ResultsOf(cases, run, n - 1);
    } else {
      assert Passing(cases, run, n) == {};
    }
  }

  /** A result bears the id of its case and says what running that case gave. */
  ghost predicate Records(r: CaseResult, c: Case, outcome: Outcome) {
    && (c.id.Some? ==> r.caseId == c.id.value)
    && r.passed == outcome.passed && r.duration == outcome.duration && r.cost == outcome.cost
  }

  lemma {:induction false} CaseByCase(cases: seq<Case>, run: CaseRunner, n: nat, results: seq<CaseResult>)
    requires n <= |cases| && results == ResultsOf(cases, run, n)
    ensures forall i | 0 <= i < n :: Records(results[i], cases[i], run(cases[i], i))
    ensures CountPassed(results) == |set i: nat | i < n && run(cases[i], i).passed|
  {
    CountOfPassingCases(cases, run, n);
    assert Passing(cases, run, n) == set i: nat | i < n && run(cases[i], i).passed;
  }

  /** The cost of running the first `n` cases. */
  function CostOfRuns(cases: seq<Case>, run: CaseRunner, n: nat): real
    requires n <= |cases|
  {
    if n == 0 then 0.0 else CostOfRuns(cases, run, n - 1) + run(cases[n - 1], n - 1).cost
  }

  lemma {:induction false} TotalCostOfRuns(cases: seq<Case>, run: CaseRunner, n: nat)
    requires n <= |cases|
    ensures TotalCost(ResultsOf(cases, run, n)) == CostOfRuns(cases, run, n)
  {
    if n > 0 {
      TotalCostOfRuns(cases, run, n - 1);
      assert ResultsOf(cases, run, n)[..n - 1] == ResultsOf(cases, run, n - 1);
    }
  }

  /** The gate judges the runs: it has a verdict exactly if a case was run and a threshold
      is set, and passes exactly if enough of them passed, their costs add up to little
      enough, and the 95th percentile of their durations is low enough. */
  lemma {:induction false} GateJudgesTheRuns(cases: seq<Case>, run: CaseRunner, n: nat, t: Thresholds, passed: nat,
                                             durations: seq<real>, gate: Gate)
    requires n <= |cases| && gate == EvaluationGate(ResultsOf(cases, run, n), t)
    requires passed == |set i: nat | i < n && run(cases[i], i).passed|
    requires |durations| == n && forall i | 0 <= i < n :: durations[i] == run(cases[i], i).duration
    ensures gate.NoVerdict? <==> n == 0 || (t.passRateMin.None? && t.maxCost.None? && t.maxP95.None?)
    ensures gate.Verdict? ==> (gate.passed <==> TotalsMeet(t, n, passed, CostOfRuns(cases, run, n), durations))
  {
    var results := ResultsOf(cases, run, n);
    TotalCostOfRuns(cases, run, n);
    CaseByCase(cases, run, n, results);
    assert Durations(results) == durations;
    TotalsDecide(results, t, passed, CostOfRuns(cases, run, n), durations, gate);
  }

  ghost predicate TotalsMeet(t: Thresholds, n: nat, passed: nat, cost: real, durations: seq<real>)
    requires |durations| == n
  {
    && (t.passRateMin.Some? ==> passed as real >= t.passRateMin.value * n as real)
    && (t.maxCost.Some? ==> cost <= t.maxCost.value)
    && (t.maxP95.Some? && n > 0 ==> P95(durations) <= t.maxP95.value)
  }

  lemma {:induction false} TotalsDecide(results: seq<CaseResult>, t: Thresholds, passed: nat, cost: real, durations: seq<real>,
                                        gate: Gate)
    requires gate == EvaluationGate(results, t) && passed == CountPassed(results) && cost == TotalCost(results)
    requires durations == Durations(results)
    ensures gate.NoVerdict? <==> results == [] || (t.passRateMin.None? && t.maxCost.None? && t.maxP95.None?)
    ensures gate.Verdict? ==> (gate.passed <==> TotalsMeet(t, |results|, passed, cost, durations))
  {
    VerdictExactly(results, t);
    if gate.Verdict? {
      GatePassesExactlyWhenMet(results, t);
      MeetsByTotals(results, t, passed, cost, durations);
    }
  }

  lemma {:induction false} VerdictExactly(results: seq<CaseResult>, t: Thresholds)
    ensures EvaluationGate(results, t).NoVerdict? <==> results == [] || !Configured(t)
    ensures Configured(t) <==> t.passRateMin.Some? || t.maxCost.Some? || t.maxP95.Some?
  {
  }

  lemma {:induction false} MeetsByTotals(results: seq<CaseResult>, t: Thresholds, passed: nat, cost: real, durations: seq<real>)
    requires results != [] && passed == CountPassed(results) && cost == TotalCost(results) && durations == Durations(results)
    ensures Meets(results, t) <==> TotalsMeet(t, |results|, passed, cost, durations)
  {
    match t.passRateMin
    case Some(minimum) => RateAtLeast(passed as real, |results| as real, minimum);
    case None =>
  }

  lemma RateAtLeast(passed: real, n: real, minimum: real)
    requires n > 0.0
    ensures passed / n >= minimum <==> passed >= minimum * n
  {
    var rate := passed / n;
    assert rate * n == passed;
    if rate >= minimum {
      assert (rate - minimum) * n >= 0.0;
    } else {
      assert (minimum - rate) * n > 0.0;
    }
  }

  class EvaluationRow {
    var status: Status
    var completedCases: nat
    var passed: nat
    var total: nat
    var results: seq<CaseResult>
    var gate: Gate

    constructor (queued: bool, total: nat)
      ensures status == (if queued then Queued else Running) && results == [] && completedCases == 0
      ensures passed == 0 && this.total == total && gate == NoVerdict
    {
      status := if queued then Queued else Running;
      completedCases, passed, this.total, results, gate := 0, 0, total, [], NoVerdict;
    }

    /** `cancel_evaluation` */
    method Cancel() returns (ok: bool)
      modifies this`status
      ensures ok <==> old(status) == Queued || old(status) == Running
      ensures status == if ok then Cancelled else old(status)
    {
      ok := status == Queued || status == Running;
      if ok {
        status := Cancelled;
      }
    }

    /** The loop of `_run_evaluation_job`, and its look at the status behind it. */
    method RunCases(cases: seq<Case>, run: CaseRunner, cancelled: nat -> bool) returns (done: seq<CaseResult>)
      requires status == Queued || status == Running
      modifies this
      ensures |done| <= |cases| && done == ResultsOf(cases, run, |done|)
      ensures status == Queued || status == Running || status == Cancelled
      ensures forall k: nat | k < |done| :: !cancelled(k)
      ensures status == Cancelled <==> cancelled(|done|)
      ensures status != Cancelled ==> |done| == |cases|
    {
      done := [];
      var i := 0;
      while i < |cases|
        invariant i <= |cases| && done == ResultsOf(cases, run, i)
        invariant status == Queued || status == Running
        invariant forall k: nat | k < i :: !cancelled(k)
      {
        if cancelled(i) {
          var _ := Cancel();
        }
        if status == Cancelled {
          return;
        }
        done := done + [ResultOf(cases[i], run(cases[i], i))];
        completedCases := |done|;
        i := i + 1;
      }
      if cancelled(i) {
        var _ := Cancel();
      }
    }

    /** `_run_evaluation_job`.  `cancelled(k)` says that a cancel commits before the
        job's k-th look at its status, `late` that one commits after the last look: the
        job's final update overwrites it. */
    method RunJob(cases: seq<Case>, run: CaseRunner, thresholds: Thresholds, cancelled: nat -> bool, late: bool)
      requires status == Queued || status == Running
      modifies this
      ensures |results| <= |cases| && results == ResultsOf(cases, run, |results|)
      ensures status == Completed || status == Cancelled
      ensures status == Completed ==> |results| == |cases|
      ensures status == Cancelled <==> exists k: nat | k <= |cases| :: cancelled(k)
      ensures status == Cancelled && |results| < |cases| ==> cancelled(|results|)
      ensures forall k: nat | k < |results| :: !cancelled(k)
      ensures completedCases == |results| && passed == CountPassed(results) && total == |cases|
      // Every result is that of its case, and every pass is counted.
      ensures forall i | 0 <= i < |results| :: Records(results[i], cases[i], run(cases[i], i))
      ensures passed == |set i: nat | i < |results| && run(cases[i], i).passed|
      ensures gate == EvaluationGate(results, thresholds)
    {
      var done := RunCases(cases, run, cancelled);
      var wasCancelled := status == Cancelled;
      if late {
        var _ := Cancel();
      }
      passed := CountPassed(done);
      CaseByCase(cases, run, |done|, done);
      total := |cases|;
      results := done;
      status := if wasCancelled then Cancelled else Completed;
      completedCases := |done|;
      gate := EvaluationGate(done, thresholds);
    }
  }
}
