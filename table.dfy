/**
 * The `tasks` table of the PostgreSQL store and the SQL statements the store
 * runs against it, each as a function over the sequence of rows.
 *
 * Rows are kept in insertion order. `created_at` comes from a clock that
 * strictly increases with every insert, and `id` from a SERIAL counter, so
 * table order, `created_at` order and `id` order coincide (`Chrono`).
 */
module TaskTable {
  import opened Wrappers

  /** One row: `(id, user_id, text, done, created_at, task_id_in_list)`. */
  datatype Row = Row(id: nat, userId: int, text: string, done: bool, createdAt: nat, pos: int)

  /** A task as `load_tasks_from_db` returns it: the row without `user_id`. */
  datatype Task = Task(id: nat, text: string, done: bool, createdAt: nat, position: int)

  /** The WHERE clauses the store uses; every one of them fixes `user_id`. */
  datatype Where =
    | OwnedBy(user: int)                      // user_id = u
    | OwnedAt(user: int, pos: int)            // user_id = u AND task_id_in_list = p
    | PendingOf(user: int)                    // user_id = u AND done = FALSE
    | CreatedBefore(user: int, time: nat)     // user_id = u AND created_at < t

  predicate Matches(w: Where, r: Row) {
    && r.userId == w.user
    && match w
       case OwnedBy(_) => true
       case OwnedAt(_, p) => r.pos == p
       case PendingOf(_) => !r.done
       case CreatedBefore(_, t) => r.createdAt < t
  }

  function Front<T>(s: seq<T>): seq<T>
    requires s != []
  {
    s[..|s| - 1]
  }

  function Last<T>(s: seq<T>): T
    requires s != []
  {
    s[|s| - 1]
  }

  /** `SELECT * FROM tasks WHERE w`, in table order. */
  function Select(rows: seq<Row>, w: Where): seq<Row>
  {
    if rows == [] then []
    else Select(Front(rows), w) + (if Matches(w, Last(rows)) then [Last(rows)] else [])
  }

  /** The rows of user `u`, in table order. */
  function Owned(rows: seq<Row>, u: int): seq<Row>
  {
    Select(rows, OwnedBy(u))
  }

  /** `SELECT COUNT(*) FROM tasks WHERE w`, and the row count of an UPDATE or DELETE with that WHERE. */
  function Count(rows: seq<Row>, w: Where): nat
  {
    |Select(rows, w)|
  }

  /** `DELETE FROM tasks WHERE w`. */
  function DeleteWhere(rows: seq<Row>, w: Where): seq<Row>
  {
    if rows == [] then []
    else DeleteWhere(Front(rows), w) + (if Matches(w, Last(rows)) then [] else [Last(rows)])
  }

  /** `UPDATE tasks SET done = TRUE WHERE w`. */
  function SetDoneWhere(rows: seq<Row>, w: Where): (r: seq<Row>)
  {
    seq(|rows|, k requires 0 <= k < |rows| => if Matches(w, rows[k]) then rows[k].(done := true) else rows[k])
  }

  /**
   * `UPDATE tasks SET task_id_in_list = ROW_NUMBER() OVER (ORDER BY created_at)`
   * over the rows of user `u`, joined back on `id`: each of the user's rows gets
   * one more than the number of the user's rows created before it.
   */
  function Renumber(rows: seq<Row>, u: int): (r: seq<Row>)
  {
    seq(|rows|, k requires 0 <= k < |rows| =>
      if rows[k].userId == u then rows[k].(pos := Count(rows, CreatedBefore(u, rows[k].createdAt)) + 1)
      else rows[k])
  }

  /** `SELECT MAX(task_id_in_list)` over the given rows: NULL (None) when there are none. */
  function MaxPosition(rows: seq<Row>): (r: Option<int>)
    ensures r.None? <==> rows == []
    ensures r.Some? ==> forall k :: 0 <= k < |rows| ==> rows[k].pos <= r.value
    ensures r.Some? ==> exists k :: 0 <= k < |rows| && rows[k].pos == r.value
  {
    if rows == [] then None
    else match MaxPosition(Front(rows))
      case None => Some(Last(rows).pos)
      case Some(m) => Some(if m < Last(rows).pos then Last(rows).pos else m)
  }

  /** The list numbered from 1 in order: the i-th row (from 0) has position i + 1. */
  predicate Numbered(s: seq<Row>) {
    forall k :: 0 <= k < |s| ==> s[k].pos == k + 1
  }

  /** `s` with every row given its place in `s` (from 1) as position. */
  function Relabel(s: seq<Row>): (r: seq<Row>)
    ensures |r| == |s|
  {
    seq(|s|, k requires 0 <= k < |s| => s[k].(pos := k + 1))
  }

  /** `s` without its element at index `i`. */
  function Drop<T>(s: seq<T>, i: nat): (r: seq<T>)
    requires i < |s|
    ensures |r| == |s| - 1
  {
    s[..i] + s[i + 1..]
  }

  /** Every user's positions are exactly 1..N in table order. */
  ghost predicate Dense(rows: seq<Row>) {
    forall u :: Numbered(Owned(rows, u))
  }

  /** `created_at` and `id` strictly increase along the table. */
  ghost predicate Chrono(rows: seq<Row>) {
    forall i, j :: 0 <= i < j < |rows| ==> rows[i].createdAt < rows[j].createdAt && rows[i].id < rows[j].id
  }

  function View(r: Row): Task {
    Task(r.id, r.text, r.done, r.createdAt, r.pos)
  }

  /** What `load_tasks_from_db` returns for user `u`. */
  function Snapshot(rows: seq<Row>, u: int): (r: seq<Task>)
    ensures |r| == |Owned(rows, u)|
  {
    var s := Owned(rows, u);
    seq(|s|, k requires 0 <= k < |s| => View(s[k]))
  }

  /** The rowcount of a DELETE is the number of rows it removes, never more than the table holds. */
  lemma {:induction false} DeleteCount(rows: seq<Row>, w: Where)
    ensures Count(rows, w) <= |rows|
    ensures |DeleteWhere(rows, w)| == |rows| - Count(rows, w)
  {
    if rows != [] {
      DeleteCount(Front(rows), w);
    }
  }

  /** `UPDATE … SET done = TRUE` changes only `done`, and sets it on exactly the matching rows. */
  lemma SetDoneChangesOnlyDone(rows: seq<Row>, w: Where)
    ensures |SetDoneWhere(rows, w)| == |rows|
    ensures forall k :: 0 <= k < |rows| ==> SetDoneWhere(rows, w)[k].(done := rows[k].done) == rows[k]
    ensures forall k :: 0 <= k < |rows| ==> (SetDoneWhere(rows, w)[k].done <==> rows[k].done || Matches(w, rows[k]))
  {
  }

  /** The renumbering UPDATE changes only `task_id_in_list`, and only on rows of user `u`. */
  lemma RenumberChangesOnlyPositions(rows: seq<Row>, u: int)
    ensures |Renumber(rows, u)| == |rows|
    ensures forall k :: 0 <= k < |rows| ==> Renumber(rows, u)[k] == rows[k].(pos := Renumber(rows, u)[k].pos)
    ensures forall k :: 0 <= k < |rows| && rows[k].userId != u ==> Renumber(rows, u)[k] == rows[k]
  {
  }

  // ---------------------------------------------------------------------
  // Filters over concatenations

  lemma {:induction false} SelectAppend(a: seq<Row>, b: seq<Row>, w: Where)
    ensures Select(a + b, w) == Select(a, w) + Select(b, w)
    decreases |b|
  {
    if b == [] {
      assert a + b == a;
    } else {
      assert Front(a + b) == a + Front(b);
      assert Last(a + b) == Last(b);
      SelectAppend(a, Front(b), w);
    }
  }

  lemma {:induction false} DeleteWhereAppend(a: seq<Row>, b: seq<Row>, w: Where)
    ensures DeleteWhere(a + b, w) == DeleteWhere(a, w) + DeleteWhere(b, w)
    decreases |b|
  {
    if b == [] {
      assert a + b == a;
    } else {
      assert Front(a + b) == a + Front(b);
      assert Last(a + b) == Last(b);
      DeleteWhereAppend(a, Front(b), w);
    }
  }

  lemma FilterSingle(x: Row, w: Where)
    ensures Select([x], w) == if Matches(w, x) then [x] else []
    ensures DeleteWhere([x], w) == if Matches(w, x) then [] else [x]
  {
    assert Front([x]) == [];
  }

  /** A WHERE that matches nothing selects nothing and deletes nothing. */
  lemma {:induction false} NoMatch(s: seq<Row>, w: Where)
    requires forall k :: 0 <= k < |s| ==> !Matches(w, s[k])
    ensures Select(s, w) == [] && DeleteWhere(s, w) == s
  {
    if s != [] {
      NoMatch(Front(s), w);
    }
  }

  lemma {:induction false} NoMatchAround(s: seq<Row>, w: Where, i: nat)
    requires i < |s|
    requires forall k :: 0 <= k < |s| ==> (Matches(w, s[k]) <==> k == i)
    ensures Select(s[..i], w) == [] && DeleteWhere(s[..i], w) == s[..i]
    ensures Select(s[i + 1..], w) == [] && DeleteWhere(s[i + 1..], w) == s[i + 1..]
  {
    var a, b := s[..i], s[i + 1..];
    forall k | 0 <= k < |a| ensures !Matches(w, a[k]) {
      assert a[k] == s[k];
    }
    forall k | 0 <= k < |b| ensures !Matches(w, b[k]) {
      assert b[k] == s[i + 1 + k];
    }
    NoMatch(a, w);
    NoMatch(b, w);
  }

  /** A WHERE that matches exactly the row at index `i` selects that row and deletes only it. */
  lemma UniqueMatch(s: seq<Row>, w: Where, i: nat)
    requires i < |s|
    requires forall k :: 0 <= k < |s| ==> (Matches(w, s[k]) <==> k == i)
    ensures Select(s, w) == [s[i]] && DeleteWhere(s, w) == Drop(s, i)
  {
    var a, x, b := s[..i], s[i], s[i + 1..];
    assert s == (a + [x]) + b;
    NoMatchAround(s, w, i);
    assert Matches(w, x);
    MatchBetween(a, x, b, w);
  }

  /** A row that matches, between two stretches that do not, is the only row selected and deleted. */
  lemma MatchBetween(a: seq<Row>, x: Row, b: seq<Row>, w: Where)
    requires Select(a, w) == [] && DeleteWhere(a, w) == a
    requires Select(b, w) == [] && DeleteWhere(b, w) == b
    requires Matches(w, x)
    ensures Select((a + [x]) + b, w) == [x] && DeleteWhere((a + [x]) + b, w) == a + b
  {
    FilterSingle(x, w);
    SelectAppend(a + [x], b, w);
    SelectAppend(a, [x], w);
    DeleteWhereAppend(a + [x], b, w);
    DeleteWhereAppend(a, [x], w);
  }

  /** Two WHERE clauses that agree on every row of `s` select the same rows. */
  lemma {:induction false} SelectAgree(s: seq<Row>, w1: Where, w2: Where)
    requires forall k :: 0 <= k < |s| ==> (Matches(w1, s[k]) <==> Matches(w2, s[k]))
    ensures Select(s, w1) == Select(s, w2)
  {
    if s != [] {
      SelectAgree(Front(s), w1, w2);
    }
  }

  // ---------------------------------------------------------------------
  // Every statement is confined to its user

  /** Filtering the user's own rows first changes nothing: `w` only ever matches rows of `w.user`. */
  lemma {:induction false} SelectWithinOwner(rows: seq<Row>, w: Where)
    ensures Select(Owned(rows, w.user), w) == Select(rows, w)
  {
    if rows != [] {
      var f, x := Front(rows), Last(rows);
      SelectWithinOwner(f, w);
      FilterSingle(x, w);
      FilterSingle(x, OwnedBy(w.user));
      SelectAppend(Owned(f, w.user), Select([x], OwnedBy(w.user)), w);
    }
  }

  /** DELETE WHERE w, seen from user `v`: the owner loses exactly the matching rows; nobody else loses anything. */
  lemma {:induction false} OwnedAfterDelete(rows: seq<Row>, w: Where, v: int)
    ensures Owned(DeleteWhere(rows, w), v) == if v == w.user then DeleteWhere(Owned(rows, v), w) else Owned(rows, v)
  {
    if rows != [] {
      var f, x := Front(rows), Last(rows);
      OwnedAfterDelete(f, w, v);
      FilterSingle(x, w);
      FilterSingle(x, OwnedBy(v));
      var kept := DeleteWhere([x], w);
      SelectAppend(DeleteWhere(f, w), kept, OwnedBy(v));
      if kept != [] {
        FilterSingle(kept[0], OwnedBy(v));
      }
      var mine := Select([x], OwnedBy(v));
      DeleteWhereAppend(Owned(f, v), mine, w);
      if mine != [] {
        FilterSingle(mine[0], w);
      }
    }
  }

  /** UPDATE SET done WHERE w, seen from user `v`: only the owner's matching rows change. */
  lemma {:induction false} OwnedAfterSetDone(rows: seq<Row>, w: Where, v: int)
    ensures Owned(SetDoneWhere(rows, w), v) == if v == w.user then SetDoneWhere(Owned(rows, v), w) else Owned(rows, v)
  {
    if rows != [] {
      OwnedAfterSetDone(Front(rows), w, v);
      SetDoneStep(Front(rows), Last(rows), w, v);
      assert rows == Front(rows) + [Last(rows)];
    }
  }

  /** The inductive step of `OwnedAfterSetDone`: one more row at the end. */
  lemma SetDoneStep(f: seq<Row>, x: Row, w: Where, v: int)
    requires Owned(SetDoneWhere(f, w), v) == if v == w.user then SetDoneWhere(Owned(f, v), w) else Owned(f, v)
    ensures Owned(SetDoneWhere(f + [x], w), v) == if v == w.user then SetDoneWhere(Owned(f + [x], v), w) else Owned(f + [x], v)
  {
    var x' := if Matches(w, x) then x.(done := true) else x;
    SetDoneSnoc(f, x, w);
    SelectAppend(SetDoneWhere(f, w), [x'], OwnedBy(v));
    FilterSingle(x', OwnedBy(v));
    SelectAppend(f, [x], OwnedBy(v));
    FilterSingle(x, OwnedBy(v));
    if v == w.user && x.userId == v {
      SetDoneSnoc(Owned(f, v), x, w);
    }
  }

  lemma SetDoneSnoc(f: seq<Row>, x: Row, w: Where)
    ensures SetDoneWhere(f + [x], w) == SetDoneWhere(f, w) + [if Matches(w, x) then x.(done := true) else x]
  {
  }

  // ---------------------------------------------------------------------
  // ROW_NUMBER() OVER (ORDER BY created_at)

  /** In a chronological table, the number of the user's rows created before row `k` is the number of the user's rows before index `k`. */
  lemma RankIsPlace(rows: seq<Row>, u: int, k: nat)
    requires Chrono(rows) && k < |rows|
    ensures Count(rows, CreatedBefore(u, rows[k].createdAt)) == |Owned(rows[..k], u)|
  {
    var t := rows[k].createdAt;
    var a, b := rows[..k], rows[k..];
    assert rows == a + b;
    SelectAppend(a, b, CreatedBefore(u, t));
    SelectAgree(a, CreatedBefore(u, t), OwnedBy(u));
    NoMatch(b, CreatedBefore(u, t));
  }

  lemma RelabelSnoc(a: seq<Row>, x: Row)
    ensures Relabel(a + [x]) == Relabel(a) + [x.(pos := |a| + 1)]
  {
  }

  lemma {:induction false} RenumberPrefix(rows: seq<Row>, u: int, v: int, m: nat)
    requires Chrono(rows) && m <= |rows|
    ensures Owned(Renumber(rows, u)[..m], v) == if v == u then Relabel(Owned(rows[..m], u)) else Owned(rows[..m], v)
  {
    if m > 0 {
      RenumberPrefix(rows, u, v, m - 1);
      RenumberStep(rows, u, v, m);
    } else {
      assert Renumber(rows, u)[..0] == [] && rows[..0] == [];
    }
  }

  /** The inductive step of `RenumberPrefix`: one more row of the table. */
  lemma RenumberStep(rows: seq<Row>, u: int, v: int, m: nat)
    requires Chrono(rows) && 0 < m <= |rows|
    requires Owned(Renumber(rows, u)[..m - 1], v) == if v == u then Relabel(Owned(rows[..m - 1], u)) else Owned(rows[..m - 1], v)
    ensures Owned(Renumber(rows, u)[..m], v) == if v == u then Relabel(Owned(rows[..m], u)) else Owned(rows[..m], v)
  {
    var r := Renumber(rows, u);
    var x, y := rows[m - 1], r[m - 1];
    assert r[..m] == r[..m - 1] + [y];
    assert rows[..m] == rows[..m - 1] + [x];
    if x.userId == u {
      RankIsPlace(rows, u, m - 1);
    }
    RenumberSnoc(r[..m - 1], rows[..m - 1], x, y, u, v);
  }

  /** Appending a row and its renumbered copy keeps the renumbered prefix in step with the original one. */
  lemma RenumberSnoc(r: seq<Row>, a: seq<Row>, x: Row, y: Row, u: int, v: int)
    requires x.userId == u ==> y == x.(pos := |Owned(a, u)| + 1)
    requires x.userId != u ==> y == x
    requires Owned(r, v) == if v == u then Relabel(Owned(a, u)) else Owned(a, v)
    ensures Owned(r + [y], v) == if v == u then Relabel(Owned(a + [x], u)) else Owned(a + [x], v)
  {
    SelectAppend(r, [y], OwnedBy(v));
    SelectAppend(a, [x], OwnedBy(v));
    FilterSingle(x, OwnedBy(v));
    FilterSingle(y, OwnedBy(v));
    if x.userId == u && v == u {
      RelabelSnoc(Owned(a, u), x);
    }
  }

  /** After renumbering user `u`, the user's rows, in table order, are numbered 1..N; other users are untouched. */
  lemma RenumberOwned(rows: seq<Row>, u: int, v: int)
    requires Chrono(rows)
    ensures Owned(Renumber(rows, u), v) == if v == u then Relabel(Owned(rows, u)) else Owned(rows, v)
  {
    RenumberPrefix(rows, u, v, |rows|);
    assert Renumber(rows, u)[..|rows|] == Renumber(rows, u);
    assert rows[..|rows|] == rows;
  }

  // ---------------------------------------------------------------------
  // Facts about a single user's numbered list

  /** In a list numbered 1..N, position `p` names exactly one row when 1 <= p <= N and none otherwise. */
  lemma NumberedAt(s: seq<Row>, u: int, p: int)
    requires Numbered(s)
    requires forall k :: 0 <= k < |s| ==> s[k].userId == u
    ensures 1 <= p <= |s| ==> Select(s, OwnedAt(u, p)) == [s[p - 1]] && DeleteWhere(s, OwnedAt(u, p)) == Drop(s, p - 1)
    ensures !(1 <= p <= |s|) ==> Select(s, OwnedAt(u, p)) == [] && DeleteWhere(s, OwnedAt(u, p)) == s
  {
    if 1 <= p <= |s| {
      UniqueMatch(s, OwnedAt(u, p), p - 1);
    } else {
      NoMatch(s, OwnedAt(u, p));
    }
  }

  /** In a list numbered 1..N the largest position is N (NULL for an empty list). */
  lemma {:induction false} NumberedMax(s: seq<Row>)
    requires Numbered(s)
    ensures MaxPosition(s) == if s == [] then None else Some(|s|)
  {
    if s != [] {
      NumberedMax(Front(s));
    }
  }

  /** `(MAX(task_id_in_list) or 0) + 1` on a list numbered 1..N is N + 1. */
  function NextPosition(rows: seq<Row>): (p: int)
    ensures forall k :: 0 <= k < |rows| ==> rows[k].pos < p
    ensures rows == [] ==> p == 1
  {
    match MaxPosition(rows)
    case None => 1
    case Some(m) => m + 1
  }

  lemma NextPositionOfNumbered(s: seq<Row>)
    requires Numbered(s)
    ensures NextPosition(s) == |s| + 1
  {
    NumberedMax(s);
  }

  // ---------------------------------------------------------------------
  /** A WHERE that selects nothing matches no row, so UPDATE and DELETE with it change nothing. */
  lemma {:induction false} NothingSelected(s: seq<Row>, w: Where)
    requires Count(s, w) == 0
    ensures forall k :: 0 <= k < |s| ==> !Matches(w, s[k])
    ensures SetDoneWhere(s, w) == s && DeleteWhere(s, w) == s
  {
    if s != [] {
      var f, x := Front(s), Last(s);
      assert s == f + [x];
      SelectAppend(f, [x], w);
      FilterSingle(x, w);
      NothingSelected(f, w);
      forall k | 0 <= k < |s| ensures !Matches(w, s[k]) {
        if k < |f| {
          assert s[k] == f[k];
        }
      }
    }
    NoMatch(s, w);
  }

  /** A WHERE that matches every row selects them all and deletes them all. */
  lemma {:induction false} AllMatch(s: seq<Row>, w: Where)
    requires forall k :: 0 <= k < |s| ==> Matches(w, s[k])
    ensures Select(s, w) == s && DeleteWhere(s, w) == []
  {
    if s != [] {
      var f, x := Front(s), Last(s);
      assert s == f + [x];
      forall k | 0 <= k < |f| ensures Matches(w, f[k]) {
        assert f[k] == s[k];
      }
      AllMatch(f, w);
      SelectAppend(f, [x], w);
      DeleteWhereAppend(f, [x], w);
      FilterSingle(x, w);
    }
  }

  // Chronology is kept by every statement

  /** SELECT keeps only rows of the table that satisfy the WHERE clause; DELETE keeps only rows that do not. */
  lemma {:induction false} FilterMembers(rows: seq<Row>, w: Where)
    ensures forall x :: x in Select(rows, w) ==> x in rows && Matches(w, x)
    ensures forall x :: x in DeleteWhere(rows, w) ==> x in rows && !Matches(w, x)
  {
    if rows != [] {
      FilterMembers(Front(rows), w);
      assert forall x :: x in Front(rows) ==> x in rows;
    }
  }

  lemma ChronoSnoc(a: seq<Row>, x: Row)
    requires Chrono(a)
    requires forall y :: y in a ==> y.createdAt < x.createdAt && y.id < x.id
    ensures Chrono(a + [x])
  {
    var s := a + [x];
    forall i, j | 0 <= i < j < |s| ensures s[i].createdAt < s[j].createdAt && s[i].id < s[j].id {
      if j == |a| {
        assert s[i] in a;
      }
    }
  }

  /** Both filters keep the rows they keep in table order. */
  lemma {:induction false} ChronoFilters(rows: seq<Row>, w: Where)
    requires Chrono(rows)
    ensures Chrono(Select(rows, w)) && Chrono(DeleteWhere(rows, w))
  {
    if rows != [] {
      var f, x := Front(rows), Last(rows);
      assert Chrono(f);
      ChronoFilters(f, w);
      forall y | y in f ensures y.createdAt < x.createdAt && y.id < x.id {
        var i :| 0 <= i < |f| && f[i] == y;
        assert rows[i] == y;
      }
      FilterMembers(f, w);
      if Matches(w, x) {
        ChronoSnoc(Select(f, w), x);
      } else {
        ChronoSnoc(DeleteWhere(f, w), x);
      }
    }
  }

  /** A user's rows, in table order, have strictly increasing `created_at` and positions 1..N: positions follow creation order. */
  lemma PositionsFollowCreation(rows: seq<Row>, u: int, i: nat, j: nat)
    requires Chrono(rows) && Numbered(Owned(rows, u))
    requires i < j < |Owned(rows, u)|
    ensures Owned(rows, u)[i].createdAt < Owned(rows, u)[j].createdAt
    ensures Owned(rows, u)[i].pos < Owned(rows, u)[j].pos
  {
    ChronoFilters(rows, OwnedBy(u));
  }
}
