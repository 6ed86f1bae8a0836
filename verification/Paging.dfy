/**
  Cursor pagination as `list_audit_events` and `list_agent_events` do it: rows with
  `id < cursor`, newest first, at most `limit`.  A client follows the last id of
  each page while the table grows at its end.
  */
module Paging {
  import opened Prelude

  datatype Row = Row(id: int, project: int)

  /** Ids are assigned in increasing order. */
  ghost predicate Ascending(rows: seq<Row>) {
    forall i, j | 0 <= i < j < |rows| :: rows[i].id < rows[j].id
  }

  predicate Visible(r: Row, projects: Option<set<int>>) {
    projects.None? || r.project in projects.value
  }

  predicate Selected(r: Row, cursor: Option<int>, projects: Option<set<int>>) {
    (cursor.None? || r.id < cursor.value) && Visible(r, projects)
  }

  /** The rows the WHERE clause selects, newest first. */
  function Newest(rows: seq<Row>, cursor: Option<int>, projects: Option<set<int>>): seq<Row> {
    if rows == [] then []
    else
      var last := rows[|rows| - 1];
      (if Selected(last, cursor, projects) then [last] else []) + Newest(rows[..|rows| - 1], cursor, projects)
  }

  function Take(rows: seq<Row>, limit: nat): seq<Row> {
    if |rows| <= limit then rows else rows[..limit]
  }

  /** One request. */
  function Page(rows: seq<Row>, cursor: Option<int>, projects: Option<set<int>>, limit: nat): seq<Row> {
    Take(Newest(rows, cursor, projects), limit)
  }

  /** Every selected row once, newest first. */
  lemma {:induction false} NewestIsExact(rows: seq<Row>, cursor: Option<int>, projects: Option<set<int>>)
    requires Ascending(rows)
    ensures forall r :: r in Newest(rows, cursor, projects) <==>
              r in rows && (cursor.Some? ==> r.id < cursor.value) && (projects.Some? ==> r.project in projects.value)
    ensures forall i, j | 0 <= i < j < |Newest(rows, cursor, projects)| ::
              Newest(rows, cursor, projects)[i].id > Newest(rows, cursor, projects)[j].id
  {
    if rows != [] {
      var init := rows[..|rows| - 1];
      NewestIsExact(init, cursor, projects);
      assert rows == init + [rows[|rows| - 1]];
      var older := Newest(init, cursor, projects);
      forall k | 0 <= k < |older|
        ensures older[k].id < rows[|rows| - 1].id
      { assert older[k] in older; }
    }
  }

  /** A page is as many of the newest selected rows as the limit allows. */
  lemma {:induction false} PageIsExact(rows: seq<Row>, cursor: Option<int>, projects: Option<set<int>>, limit: nat)
    ensures Page(rows, cursor, projects, limit) <= Newest(rows, cursor, projects)
    ensures |Page(rows, cursor, projects, limit)| <= limit
    ensures |Page(rows, cursor, projects, limit)| < limit ==> Page(rows, cursor, projects, limit) == Newest(rows, cursor, projects)
  {
  }

  /** Rows appended later have larger ids, so a cursor never sees them. */
  lemma {:induction false} AppendedRowsUnseen(rows: seq<Row>, later: seq<Row>, cursor: int, projects: Option<set<int>>)
    requires Ascending(later) && rows <= later
    requires rows != [] && cursor <= rows[|rows| - 1].id
    ensures Newest(later, Some(cursor), projects) == Newest(rows, Some(cursor), projects)
    decreases |later|
  {
    if |later| > |rows| {
      AppendedRowsUnseen(rows, later[..|later| - 1], cursor, projects);
      assert later[|later| - 1].id > later[|rows| - 1].id;
    } else {
      assert later == rows;
    }
  }

  /** Below the last id of a page lies exactly what the page left out. */
  lemma {:induction false} NextPageContinues(rows: seq<Row>, projects: Option<set<int>>, n: nat, next: int)
    requires Ascending(rows) && 0 < n <= |Newest(rows, None, projects)|
    requires next == Newest(rows, None, projects)[n - 1].id
    ensures Newest(rows, Some(next), projects) == Newest(rows, None, projects)[n..]
  {
    var last := rows[|rows| - 1];
    var init := rows[..|rows| - 1];
    var older := Newest(init, None, projects);
    NoneIsNewer(rows, projects, n);
    assert Newest(rows, Some(next), projects) == Newest(init, Some(next), projects);
    if !Visible(last, projects) {
      assert Newest(rows, None, projects) == older;
      NextPageContinues(init, projects, n, next);
    } else {
      assert Newest(rows, None, projects) == [last] + older;
      DropFromCons(last, older, n);
      if n == 1 {
        BelowEverything(init, next, projects);
      } else {
        NextPageContinues(init, projects, n - 1, next);
      }
    }
  }

  lemma DropFromCons(first: Row, rest: seq<Row>, n: nat)
    requires 0 < n <= |rest| + 1
    ensures ([first] + rest)[n..] == rest[n - 1..]
    ensures n > 1 ==> ([first] + rest)[n - 1] == rest[n - 2]
  {
  }

  lemma {:induction false} NoneIsNewer(rows: seq<Row>, projects: Option<set<int>>, n: nat)
    requires Ascending(rows) && 0 < n <= |Newest(rows, None, projects)|
    ensures Newest(rows, None, projects)[n - 1].id <= rows[|rows| - 1].id
  {
    NewestIsExact(rows, None, projects);
    assert Newest(rows, None, projects)[n - 1] in rows;
  }

  lemma {:induction false} BelowEverything(rows: seq<Row>, next: int, projects: Option<set<int>>)
    requires forall i | 0 <= i < |rows| :: rows[i].id < next
    ensures Newest(rows, Some(next), projects) == Newest(rows, None, projects)
  {
    if rows != [] {
      BelowEverything(rows[..|rows| - 1], next, projects);
    }
  }

  /** A client that follows the cursor, while `tables(k)` is the table at its k-th
      request, visits exactly the rows a single unlimited first request would have
      given, in the same order. */
  method FollowCursor(tables: nat -> seq<Row>, projects: Option<set<int>>, limit: nat) returns (visited: seq<Row>)
    requires limit > 0
    requires forall k :: Ascending(tables(k))
    requires forall j, k | j <= k :: tables(j) <= tables(k)
    ensures visited == Newest(tables(0), None, projects)
  {
    ghost var first := tables(0);
    ghost var all := Newest(first, None, projects);
    visited := [];
    var cursor: Option<int> := None;
    var request := 0;
    while true
      invariant |visited| <= |all| && forall i | 0 <= i < |visited| :: visited[i] == all[i]
      invariant Follows(all, |visited|, cursor, request)
      decreases |all| - |visited|
    {
      ghost var n := |visited|;
      assert Ascending(first) && Ascending(tables(request)) && first <= tables(request);
      var page := Page(tables(request), cursor, projects, limit);
      PageContinues(first, tables(request), projects, n, cursor, limit, all, page);
      if page == [] {
        break;
      }
      visited := visited + page;
      cursor := Some(page[|page| - 1].id);
      request := request + 1;
    }
    assert visited == all;
  }

  /** Where the client stands after `n` rows: at the start, or at the last row it saw. */
  ghost predicate Follows(all: seq<Row>, n: nat, cursor: Option<int>, request: nat)
    requires n <= |all|
  {
    if n == 0 then cursor == None && request == 0 else cursor == Some(all[n - 1].id)
  }

  lemma TakeExtends(all: seq<Row>, n: nat, limit: nat, page: seq<Row>)
    requires n <= |all| && page == Take(all[n..], limit)
    ensures n + |page| <= |all| && forall k | n <= k < n + |page| :: page[k - n] == all[k]
    ensures page == [] ==> limit == 0 || n == |all|
  {
  }

  /** A page after `n` visited rows is the next stretch of the first table's rows. */
  lemma {:induction false} PageContinues(first: seq<Row>, table: seq<Row>, projects: Option<set<int>>, n: nat,
                                         cursor: Option<int>, limit: nat, all: seq<Row>, page: seq<Row>)
    requires Ascending(first) && Ascending(table) && first <= table && limit > 0
    requires all == Newest(first, None, projects) && n <= |all| && page == Page(table, cursor, projects, limit)
    requires if n == 0 then cursor == None && table == first else cursor == Some(all[n - 1].id)
    ensures n + |page| <= |all| && forall k | n <= k < n + |page| :: page[k - n] == all[k]
    ensures page == [] ==> n == |all|
  {
    RequestContinues(first, table, projects, n, cursor);
    TakeExtends(all, n, limit, page);
  }

  /** A request after `n` visited rows selects the rest of the first table's rows. */
  lemma {:induction false} RequestContinues(first: seq<Row>, table: seq<Row>, projects: Option<set<int>>, n: nat,
                                            cursor: Option<int>)
    requires Ascending(first) && Ascending(table) && first <= table && n <= |Newest(first, None, projects)|
    requires if n == 0 then cursor == None && table == first
             else cursor == Some(Newest(first, None, projects)[n - 1].id)
    ensures Newest(table, cursor, projects) == Newest(first, None, projects)[n..]
  {
    if n > 0 {
      NextPageContinues(first, projects, n, cursor.value);
      NoneIsNewer(first, projects, n);
      AppendedRowsUnseen(first, table, cursor.value, projects);
    }
  }
}
