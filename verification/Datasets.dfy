/** Evaluation datasets: the case ids `create_dataset` assigns and checks. */
module Datasets {
  import opened Prelude
  import opened Json
  import opened Text

  /** The fields of a case that imports and evaluations look at. */
  datatype Case = Case(id: Option<string>, input: Value, expected: Value, matcher: string)

  predicate Distinct<T(==)>(s: seq<T>) {
    forall i, j | 0 <= i < j < |s| :: s[i] != s[j]
  }

  /** `str(case.get("id") or f"case-{index + 1}").strip()` */
  function CaseId(c: Case, index: nat): string {
    Strip(if c.id.Some? && c.id.value != "" then c.id.value else "case-" + Decimal(index + 1))
  }

  function CaseIds(cases: seq<Case>): (ids: seq<string>)
    ensures |ids| == |cases|
  {
    seq(|cases|, i requires 0 <= i < |cases| => CaseId(cases[i], i))
  }

  function Normalized(cases: seq<Case>): (normalized: seq<Case>)
    ensures |normalized| == |cases|
  {
    seq(|cases|, i requires 0 <= i < |cases| => cases[i].(id := Some(CaseId(cases[i], i))))
  }

  /** The loop of `create_dataset`: normalize ids, stop at the first duplicate. */
  method NormalizeCases(cases: seq<Case>) returns (result: Result<seq<Case>, string>)
    ensures result.Success? <==> Distinct(CaseIds(cases))
    ensures result.Success? ==> result.value == Normalized(cases)
    ensures result.Failure? ==>
      exists j | 0 <= j < |cases| :: CaseIds(cases)[j] == result.error && result.error in CaseIds(cases)[..j]
  {
    var seen: set<string> := {};
    var normalized := [];
    var ids := CaseIds(cases);
    var index := 0;
    while index < |cases|
      invariant index <= |cases|
      invariant forall x :: x in seen <==> x in ids[..index]
      invariant Distinct(ids[..index])
      invariant normalized == Normalized(cases)[..index]
    {
      var caseId := CaseId(cases[index], index);
      assert ids[index] == caseId && ids[..index + 1] == ids[..index] + [caseId];
      if caseId in seen {
        assert !Distinct(ids) by {
          var i :| 0 <= i < index && ids[..index][i] == caseId;
          assert ids[i] == ids[index];
        }
        return Failure(caseId);
      }
      seen := seen + {caseId};
      normalized := normalized + [cases[index].(id := Some(caseId))];
      index := index + 1;
    }
    assert ids[..index] == ids && Normalized(cases)[..index] == Normalized(cases);
    return Success(normalized);
  }

  /** Cases as `create_dataset` stores them: every id is stripped and occurs once. */
  predicate StoredCases(cases: seq<Case>) {
    && (forall i | 0 <= i < |cases| :: cases[i].id.Some? && Strip(cases[i].id.value) == cases[i].id.value)
    && forall i, j | 0 <= i < j < |cases| :: cases[i].id != cases[j].id
  }

  lemma NormalizedIsStored(cases: seq<Case>)
    requires Distinct(CaseIds(cases))
    ensures StoredCases(Normalized(cases))
  {
    forall i | 0 <= i < |cases|
      ensures Normalized(cases)[i].id == Some(CaseIds(cases)[i]) && Strip(CaseIds(cases)[i]) == CaseIds(cases)[i]
    {
      StripIdempotent(if cases[i].id.Some? && cases[i].id.value != "" then cases[i].id.value else "case-" + Decimal(i + 1));
    }
  }

  /** Stored cases load again, unchanged, unless an id is empty. */
  lemma StoredCasesReload(cases: seq<Case>)
    requires StoredCases(cases) && forall i | 0 <= i < |cases| :: cases[i].id != Some("")
    ensures Distinct(CaseIds(cases)) && Normalized(cases) == cases
  {
    forall i | 0 <= i < |cases|
      ensures CaseIds(cases)[i] == cases[i].id.value && Normalized(cases)[i] == cases[i]
    {
      assert CaseId(cases[i], i) == cases[i].id.value;
    }
  }

  /** Normalizing again changes nothing, unless a stripped id is empty. */
  lemma NormalizedTwice(cases: seq<Case>)
    requires forall i | 0 <= i < |cases| :: Normalized(cases)[i].id != Some("")
    ensures Normalized(Normalized(cases)) == Normalized(cases)
  {
    forall i | 0 <= i < |cases|
      ensures Normalized(Normalized(cases))[i] == Normalized(cases)[i]
    {
      StripIdempotent(if cases[i].id.Some? && cases[i].id.value != "" then cases[i].id.value else "case-" + Decimal(i + 1));
      assert CaseId(Normalized(cases)[i], i) == CaseId(cases[i], i);
    }
  }

  /** A case is stored under the empty id exactly if its id is given, not empty, and
      whitespace only. */
  lemma StoredEmptyExactlyWhenBlank(c: Case, index: nat)
    ensures CaseId(c, index) == "" <==> c.id.Some? && c.id.value != "" && Blank(c.id.value)
  {
    if c.id.Some? && c.id.value != "" {
      StripEmptyExactly(c.id.value);
    } else {
      StripDefault(index);
    }
  }

  /** Default ids never clash with each other, only with ids a user chose. */
  lemma DefaultIdsDistinct(i: nat, j: nat)
    requires i != j
    ensures CaseId(Case(None, Null, Null, ""), i) != CaseId(Case(None, Null, Null, ""), j)
  {
    StripDefault(i);
    StripDefault(j);
    ParseInvertsDecimal(i + 1);
    ParseInvertsDecimal(j + 1);
    assert ("case-" + Decimal(i + 1))[5..] == Decimal(i + 1);
    assert ("case-" + Decimal(j + 1))[5..] == Decimal(j + 1);
  }

  /** Ids are counted from 1: `case-1` is the first case without an id, or with an empty one. */
  lemma {:induction false} DefaultIdText(c: Case, i: nat)
    requires c.id.None? || c.id.value == ""
    ensures CaseId(c, i) == "case-" + Decimal(i + 1)
    ensures i == 0 ==> CaseId(c, i) == "case-1"
  {
    StripDefault(i);
    assert Decimal(1) == "1";
  }

  lemma StripDefault(i: nat)
    ensures Strip("case-" + Decimal(i + 1)) == "case-" + Decimal(i + 1)
  {
    var d := Decimal(i + 1);
    var s := "case-" + d;
    assert s[0] == 'c' && LeftStrip(s) == s;
    assert s[|s| - 1] == d[|d| - 1] && IsDigit(d[|d| - 1]);
  }
}
