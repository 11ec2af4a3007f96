/**
 * The PostgreSQL + Redis task store: the `tasks` table, the SERIAL id
 * counter, the clock behind `NOW()`, and the Redis map from `tasks:<user_id>`
 * to the JSON list of that user's tasks.
 *
 * Every operation takes `dbUp`, whether `get_db_conn` managed to connect;
 * when it did not, the operation gives its documented failure result and
 * touches nothing. Redis calls are taken to succeed.
 */
module DbConnect {
  import opened Wrappers
  import opened Decimal
  import opened TaskTable

  /** `cache_key(user_id)`: `"tasks:" + str(user_id)`. */
  function CacheKey(userId: int): (k: string)
    ensures |k| > 6 && k[..6] == "tasks:"
  {
    "tasks:" + Show(userId)
  }

  /** Different users never share a cache entry. */
  lemma CacheKeyInjective(a: int, b: int)
    ensures CacheKey(a) == CacheKey(b) <==> a == b
  {
    if CacheKey(a) == CacheKey(b) {
      assert Show(a) == CacheKey(a)[6..];
      assert Show(b) == CacheKey(b)[6..];
      ShowInjective(a, b);
    }
  }

  /** A Redis value: JSON that `json.loads` decodes to a task list, or text it rejects. */
  datatype CacheEntry = Stored(tasks: seq<Task>) | Corrupt

  /** Every decodable cache entry is the current snapshot of its user's rows. */
  ghost predicate Coherent(rows: seq<Row>, cache: map<string, CacheEntry>) {
    forall u :: CacheKey(u) in cache && cache[CacheKey(u)].Stored? ==> cache[CacheKey(u)].tasks == Snapshot(rows, u)
  }

  /** Every user other than `u` has the same rows in `a` and `b`. */
  ghost predicate OthersKept(a: seq<Row>, b: seq<Row>, u: int) {
    forall v :: v != u ==> Owned(b, v) == Owned(a, v)
  }

  /** Dropping `u`'s cache entry after a write confined to `u` keeps the cache coherent. */
  lemma InvalidateRestoresCoherence(a: seq<Row>, b: seq<Row>, cache: map<string, CacheEntry>, u: int)
    requires Coherent(a, cache) && OthersKept(a, b, u)
    ensures Coherent(b, cache - {CacheKey(u)})
  {
    var c := cache - {CacheKey(u)};
    forall v | CacheKey(v) in c && c[CacheKey(v)].Stored? ensures c[CacheKey(v)].tasks == Snapshot(b, v) {
      CacheKeyInjective(u, v);
      assert Owned(b, v) == Owned(a, v);
    }
  }

  /** Storing a fresh snapshot of `u` keeps the cache coherent. */
  lemma StoreKeepsCoherence(rows: seq<Row>, cache: map<string, CacheEntry>, u: int)
    requires Coherent(rows, cache)
    ensures Coherent(rows, cache[CacheKey(u) := Stored(Snapshot(rows, u))])
  {
    forall v ensures CacheKey(v) == CacheKey(u) ==> v == u {
      CacheKeyInjective(u, v);
    }
  }

  /** Dense numbering survives a write that leaves every other user alone and renumbers `u` from 1. */
  lemma DenseAfterWrite(a: seq<Row>, b: seq<Row>, u: int)
    requires Dense(a) && OthersKept(a, b, u) && Numbered(Owned(b, u))
    ensures Dense(b)
  {
    forall v ensures Numbered(Owned(b, v)) {
      if v != u {
        assert Owned(b, v) == Owned(a, v);
      }
    }
  }

  /** All stored `created_at` values and ids are below the clock and the id counter. */
  ghost predicate Below(rows: seq<Row>, clock: nat, nextId: nat) {
    forall k :: 0 <= k < |rows| ==> rows[k].createdAt < clock && rows[k].id < nextId
  }

  lemma BelowFilters(rows: seq<Row>, w: Where, clock: nat, nextId: nat)
    requires Below(rows, clock, nextId)
    ensures Below(DeleteWhere(rows, w), clock, nextId)
  {
    FilterMembers(rows, w);
    var d := DeleteWhere(rows, w);
    forall k | 0 <= k < |d| ensures d[k].createdAt < clock && d[k].id < nextId {
      assert d[k] in rows;
    }
  }

  /** The user's rows all belong to the user. */
  lemma OwnedBelongs(rows: seq<Row>, u: int)
    ensures forall k :: 0 <= k < |Owned(rows, u)| ==> Owned(rows, u)[k].userId == u
  {
    FilterMembers(rows, OwnedBy(u));
    forall k | 0 <= k < |Owned(rows, u)| ensures Owned(rows, u)[k].userId == u {
      assert Owned(rows, u)[k] in Owned(rows, u);
    }
  }

  /** The invariant the store keeps between operations. */
  ghost predicate Inv(rows: seq<Row>, clock: nat, nextId: nat, cache: map<string, CacheEntry>) {
    && Chrono(rows)
    && Below(rows, clock, nextId)
    && Dense(rows)
    && Coherent(rows, cache)
  }

  /** UPDATE and the renumbering UPDATE leave `created_at` and `id` of every row alone. */
  lemma PointwiseKeepsOrder(rows: seq<Row>, after: seq<Row>, clock: nat, nextId: nat)
    requires Chrono(rows) && Below(rows, clock, nextId)
    requires |after| == |rows|
    requires forall k :: 0 <= k < |rows| ==> after[k].createdAt == rows[k].createdAt && after[k].id == rows[k].id
    ensures Chrono(after) && Below(after, clock, nextId)
  {
  }

  /**
   * On a densely numbered table, `WHERE user_id = u AND task_id_in_list = p`
   * matches exactly one row when `1 <= p <= N` and none otherwise; with none,
   * the UPDATE and the DELETE change nothing.
   */
  lemma PositionCount(rows: seq<Row>, u: int, p: int)
    requires Dense(rows)
    ensures Count(rows, OwnedAt(u, p)) == if 1 <= p <= |Owned(rows, u)| then 1 else 0
    ensures !(1 <= p <= |Owned(rows, u)|) ==>
      SetDoneWhere(rows, OwnedAt(u, p)) == rows && DeleteWhere(rows, OwnedAt(u, p)) == rows
  {
    var mine := Owned(rows, u);
    OwnedBelongs(rows, u);
    SelectWithinOwner(rows, OwnedAt(u, p));
    NumberedAt(mine, u, p);
    if !(1 <= p <= |mine|) {
      NothingSelected(rows, OwnedAt(u, p));
    }
  }

  /** The pending count is counted among the user's rows; when it is zero they are all done. */
  lemma PendingCount(rows: seq<Row>, u: int)
    ensures Count(rows, PendingOf(u)) == |Select(Owned(rows, u), PendingOf(u))|
    ensures Count(rows, PendingOf(u)) == 0 ==> forall k :: 0 <= k < |Owned(rows, u)| ==> Owned(rows, u)[k].done
  {
    SelectWithinOwner(rows, PendingOf(u));
    OwnedBelongs(rows, u);
    if Count(rows, PendingOf(u)) == 0 {
      NothingSelected(Owned(rows, u), PendingOf(u));
    }
  }

  /** The INSERT of `save_task_to_db` keeps the invariant and appends to the user's rows only. */
  lemma SaveStep(rows: seq<Row>, clock: nat, nextId: nat, cache: map<string, CacheEntry>, u: int, text: string)
    requires Inv(rows, clock, nextId, cache)
    ensures NextPosition(Owned(rows, u)) == |Owned(rows, u)| + 1
    ensures var row := Row(nextId, u, text, false, clock, |Owned(rows, u)| + 1);
      && Inv(rows + [row], clock + 1, nextId + 1, cache - {CacheKey(u)})
      && Owned(rows + [row], u) == Owned(rows, u) + [row]
      && OthersKept(rows, rows + [row], u)
  {
    var row := Row(nextId, u, text, false, clock, |Owned(rows, u)| + 1);
    var after := rows + [row];
    NextPositionOfNumbered(Owned(rows, u));
    forall v ensures Owned(after, v) == Owned(rows, v) + (if v == u then [row] else []) {
      SelectAppend(rows, [row], OwnedBy(v));
      FilterSingle(row, OwnedBy(v));
    }
    ChronoSnoc(rows, row);
    DenseAfterWrite(rows, after, u);
    InvalidateRestoresCoherence(rows, after, cache, u);
  }

  /** The UPDATE of `mark_done_in_db` on an existing position keeps the invariant and touches that one task only. */
  lemma MarkDoneStep(rows: seq<Row>, clock: nat, nextId: nat, cache: map<string, CacheEntry>, u: int, p: int)
    requires Inv(rows, clock, nextId, cache)
    requires 1 <= p <= |Owned(rows, u)|
    ensures var after := SetDoneWhere(rows, OwnedAt(u, p));
      && Inv(after, clock, nextId, cache - {CacheKey(u)})
      && Owned(after, u) == Owned(rows, u)[p - 1 := Owned(rows, u)[p - 1].(done := true)]
      && OthersKept(rows, after, u)
  {
    var w := OwnedAt(u, p);
    var after := SetDoneWhere(rows, w);
    var mine := Owned(rows, u);
    OwnedBelongs(rows, u);
    forall v ensures Owned(after, v) == if v == u then SetDoneWhere(mine, w) else Owned(rows, v) {
      OwnedAfterSetDone(rows, w, v);
    }
    assert SetDoneWhere(mine, w) == mine[p - 1 := mine[p - 1].(done := true)];
    PointwiseKeepsOrder(rows, after, clock, nextId);
    DenseAfterWrite(rows, after, u);
    InvalidateRestoresCoherence(rows, after, cache, u);
  }

  /** The DELETE and renumbering of `delete_task_from_db` keep the invariant and close the gap in the user's numbering. */
  lemma DeleteStep(rows: seq<Row>, clock: nat, nextId: nat, cache: map<string, CacheEntry>, u: int, p: int)
    requires Inv(rows, clock, nextId, cache)
    requires 1 <= p <= |Owned(rows, u)|
    ensures var after := Renumber(DeleteWhere(rows, OwnedAt(u, p)), u);
      && Inv(after, clock, nextId, cache - {CacheKey(u)})
      && Owned(after, u) == Relabel(Drop(Owned(rows, u), p - 1))
      && OthersKept(rows, after, u)
  {
    var w := OwnedAt(u, p);
    var mine := Owned(rows, u);
    var survivors := DeleteWhere(rows, w);
    var after := Renumber(survivors, u);
    OwnedBelongs(rows, u);
    NumberedAt(mine, u, p);
    ChronoFilters(rows, w);
    BelowFilters(rows, w, clock, nextId);
    PointwiseKeepsOrder(survivors, after, clock, nextId);
    forall v ensures Owned(after, v) == if v == u then Relabel(Drop(mine, p - 1)) else Owned(rows, v) {
      OwnedAfterDelete(rows, w, v);
      RenumberOwned(survivors, u, v);
    }
    DenseAfterWrite(rows, after, u);
    InvalidateRestoresCoherence(rows, after, cache, u);
  }

  /** The DELETE of `clear_all_tasks_db` keeps the invariant and empties the user's list only. */
  lemma ClearStep(rows: seq<Row>, clock: nat, nextId: nat, cache: map<string, CacheEntry>, u: int)
    requires Inv(rows, clock, nextId, cache)
    ensures Count(rows, OwnedBy(u)) == |Owned(rows, u)|
    ensures var after := DeleteWhere(rows, OwnedBy(u));
      && Inv(after, clock, nextId, cache - {CacheKey(u)})
      && Owned(after, u) == []
      && OthersKept(rows, after, u)
  {
    var w := OwnedBy(u);
    var after := DeleteWhere(rows, w);
    OwnedBelongs(rows, u);
    AllMatch(Owned(rows, u), w);
    ChronoFilters(rows, w);
    BelowFilters(rows, w, clock, nextId);
    forall v ensures Owned(after, v) == if v == u then [] else Owned(rows, v) {
      OwnedAfterDelete(rows, w, v);
    }
    DenseAfterWrite(rows, after, u);
    InvalidateRestoresCoherence(rows, after, cache, u);
  }

  /** The UPDATE of `done_all_tasks_db` keeps the invariant and marks every task of the user, and only the user's, done. */
  lemma DoneAllStep(rows: seq<Row>, clock: nat, nextId: nat, cache: map<string, CacheEntry>, u: int)
    requires Inv(rows, clock, nextId, cache)
    ensures var after := SetDoneWhere(rows, OwnedBy(u));
      && Inv(after, clock, nextId, cache - {CacheKey(u)})
      && |Owned(after, u)| == |Owned(rows, u)|
      && (forall k :: 0 <= k < |Owned(after, u)| ==> Owned(after, u)[k] == Owned(rows, u)[k].(done := true))
      && OthersKept(rows, after, u)
  {
    var w := OwnedBy(u);
    var after := SetDoneWhere(rows, w);
    var mine := Owned(rows, u);
    OwnedBelongs(rows, u);
    forall v ensures Owned(after, v) == if v == u then SetDoneWhere(mine, w) else Owned(rows, v) {
      OwnedAfterSetDone(rows, w, v);
    }
    PointwiseKeepsOrder(rows, after, clock, nextId);
    DenseAfterWrite(rows, after, u);
    InvalidateRestoresCoherence(rows, after, cache, u);
  }

  /** The store of `db_connect.py`. */
  class TaskStore {
    /** The `tasks` table, in insertion order. */
    var rows: seq<Row>
    /** The next value of the SERIAL `id`. */
    var nextId: nat
    /** The next value of `NOW()`; it only moves forward. */
    var clock: nat
    /** Redis: key to cached JSON. */
    var cache: map<string, CacheEntry>

    ghost predicate Valid()
      reads this
    {
      Inv(rows, clock, nextId, cache)
    }

    /** An empty table and an empty cache. */
    constructor ()
      ensures Valid()
      ensures rows == [] && cache == map[] && nextId == 1 && clock == 0
    {
      rows := [];
      nextId := 1;
      clock := 0;
      cache := map[];
    }

    /** `invalidate_cache(user_id)`: delete the user's key. */
    method Invalidate(u: int)
      modifies this`cache
      ensures cache == old(cache) - {CacheKey(u)}
    {
      cache := cache - {CacheKey(u)};
    }

    /**
     * `save_task_to_db(user_id, text)`: insert a row at position
     * `MAX(task_id_in_list) + 1` (1 for a user without rows) and return that
     * position; `None` when the database is unreachable.
     */
    method Save(u: int, text: string, dbUp: bool) returns (pos: Option<int>)
      requires Valid()
      modifies this
      ensures Valid()
      ensures !dbUp ==> pos == None && unchanged(this)
      ensures dbUp ==> pos == Some(|old(Owned(rows, u))| + 1)
      ensures dbUp ==> rows == old(rows) + [Row(old(nextId), u, text, false, old(clock), pos.value)]
      ensures dbUp ==> Owned(rows, u) == old(Owned(rows, u)) + [rows[|rows| - 1]]
      ensures dbUp ==> cache == old(cache) - {CacheKey(u)}
      ensures dbUp ==> nextId == old(nextId) + 1 && clock == old(clock) + 1
      ensures forall v :: v != u ==> Owned(rows, v) == old(Owned(rows, v))
    {
      if !dbUp {
        return None;
      }
      SaveStep(rows, clock, nextId, cache, u, text);
      var newPos := NextPosition(Owned(rows, u));
      rows := rows + [Row(nextId, u, text, false, clock, newPos)];
      nextId := nextId + 1;
      clock := clock + 1;
      Invalidate(u);
      pos := Some(newPos);
    }

    /**
     * `mark_done_in_db(user_id, n)`: set `done` on the user's row at position
     * `n`; True exactly when such a row exists (already done or not).
     */
    method MarkDone(u: int, p: int, dbUp: bool) returns (ok: bool)
      requires Valid()
      modifies this
      ensures Valid()
      ensures ok == (dbUp && 1 <= p <= |old(Owned(rows, u))|)
      ensures ok ==> Owned(rows, u) == old(Owned(rows, u))[p - 1 := old(Owned(rows, u))[p - 1].(done := true)]
      ensures ok ==> rows == SetDoneWhere(old(rows), OwnedAt(u, p)) && cache == old(cache) - {CacheKey(u)}
      ensures !ok ==> rows == old(rows) && cache == old(cache)
      ensures forall v :: v != u ==> Owned(rows, v) == old(Owned(rows, v))
      ensures nextId == old(nextId) && clock == old(clock)
    {
      if !dbUp {
        return false;
      }
      PositionCount(rows, u, p);
      if 1 <= p <= |Owned(rows, u)| {
        MarkDoneStep(rows, clock, nextId, cache, u, p);
      }
      var affected := Count(rows, OwnedAt(u, p));
      rows := SetDoneWhere(rows, OwnedAt(u, p));
      if affected == 0 {
        return false;
      }
      Invalidate(u);
      ok := true;
    }

    /**
     * `delete_task_from_db(user_id, n)`: delete the user's row at position `n`,
     * then renumber the user's remaining rows by `created_at`; False, with
     * nothing changed, when there is no such row.
     */
    method Delete(u: int, p: int, dbUp: bool) returns (ok: bool)
      requires Valid()
      modifies this
      ensures Valid()
      ensures ok == (dbUp && 1 <= p <= |old(Owned(rows, u))|)
      ensures ok ==> Owned(rows, u) == Relabel(Drop(old(Owned(rows, u)), p - 1))
      ensures ok ==> rows == Renumber(DeleteWhere(old(rows), OwnedAt(u, p)), u) && cache == old(cache) - {CacheKey(u)}
      ensures !ok ==> rows == old(rows) && cache == old(cache)
      ensures forall v :: v != u ==> Owned(rows, v) == old(Owned(rows, v))
      ensures nextId == old(nextId) && clock == old(clock)
    {
      if !dbUp {
        return false;
      }
      PositionCount(rows, u, p);
      if 1 <= p <= |Owned(rows, u)| {
        DeleteStep(rows, clock, nextId, cache, u, p);
      }
      var affected := Count(rows, OwnedAt(u, p));
      rows := DeleteWhere(rows, OwnedAt(u, p));
      if affected == 0 {
        return false;
      }
      rows := Renumber(rows, u);
      Invalidate(u);
      ok := true;
    }

    /**
     * `clear_all_tasks_db(user_id)`: delete all of the user's rows and return
     * `(True, count before)`; with no rows, `(True, 0)` and nothing touched.
     */
    method ClearAll(u: int, dbUp: bool) returns (ok: bool, count: nat)
      requires Valid()
      modifies this
      ensures Valid()
      ensures ok == dbUp
      ensures count == if dbUp then |old(Owned(rows, u))| else 0
      ensures dbUp ==> Owned(rows, u) == []
      ensures count > 0 ==> rows == DeleteWhere(old(rows), OwnedBy(u)) && cache == old(cache) - {CacheKey(u)}
      ensures count == 0 ==> rows == old(rows) && cache == old(cache)
      ensures forall v :: v != u ==> Owned(rows, v) == old(Owned(rows, v))
      ensures nextId == old(nextId) && clock == old(clock)
    {
      if !dbUp {
        return false, 0;
      }
      ClearStep(rows, clock, nextId, cache, u);
      count := Count(rows, OwnedBy(u));
      if count == 0 {
        return true, 0;
      }
      rows := DeleteWhere(rows, OwnedBy(u));
      Invalidate(u);
      ok := true;
    }

    /**
     * `done_all_tasks_db(user_id)`: mark all of the user's rows done and return
     * `(True, number that were not done)`; with none pending, `(True, 0)` and
     * nothing touched.
     */
    method DoneAll(u: int, dbUp: bool) returns (ok: bool, count: nat)
      requires Valid()
      modifies this
      ensures Valid()
      ensures ok == dbUp
      ensures count == if dbUp then |Select(old(Owned(rows, u)), PendingOf(u))| else 0
      ensures dbUp ==> |Owned(rows, u)| == |old(Owned(rows, u))|
      ensures dbUp ==> forall k :: 0 <= k < |Owned(rows, u)| ==> Owned(rows, u)[k] == old(Owned(rows, u))[k].(done := true)
      ensures count > 0 ==> rows == SetDoneWhere(old(rows), OwnedBy(u)) && cache == old(cache) - {CacheKey(u)}
      ensures count == 0 ==> rows == old(rows) && cache == old(cache)
      ensures forall v :: v != u ==> Owned(rows, v) == old(Owned(rows, v))
      ensures nextId == old(nextId) && clock == old(clock)
    {
      if !dbUp {
        return false, 0;
      }
      PendingCount(rows, u);
      count := Count(rows, PendingOf(u));
      if count == 0 {
        return true, 0;
      }
      DoneAllStep(rows, clock, nextId, cache, u);
      rows := SetDoneWhere(rows, OwnedBy(u));
      Invalidate(u);
      ok := true;
    }

    /**
     * `load_tasks_from_db(user_id)`: the user's tasks ordered by position, also
     * written to the cache; `[]` and no cache write when the database is
     * unreachable.
     */
    method Load(u: int, dbUp: bool) returns (tasks: seq<Task>)
      requires Valid()
      modifies this`cache
      ensures Valid()
      ensures !dbUp ==> tasks == [] && cache == old(cache)
      ensures dbUp ==> tasks == Snapshot(rows, u) && cache == old(cache)[CacheKey(u) := Stored(tasks)]
      ensures dbUp ==> forall k :: 0 <= k < |tasks| ==> tasks[k].position == k + 1
    {
      if !dbUp {
        return [];
      }
      tasks := Snapshot(rows, u);
      StoreKeepsCoherence(rows, cache, u);
      cache := cache[CacheKey(u) := Stored(tasks)];
      assert Numbered(Owned(rows, u));
    }

    /**
     * `get_user_tasks(user_id)`: a decodable cache entry is returned as it is;
     * otherwise the tasks are loaded from the table (and cached). Either way,
     * with the database up, the result is the user's current rows in position
     * order.
     */
    method Get(u: int, dbUp: bool) returns (tasks: seq<Task>)
      requires Valid()
      modifies this`cache
      ensures Valid()
      ensures var hit := CacheKey(u) in old(cache) && old(cache)[CacheKey(u)].Stored?;
        && (hit ==> cache == old(cache))
        && (hit || dbUp ==> tasks == Snapshot(rows, u))
        && (!hit && dbUp ==> cache == old(cache)[CacheKey(u) := Stored(tasks)])
        && (!hit && !dbUp ==> tasks == [] && cache == old(cache))
    {
      var key := CacheKey(u);
      if key in cache && cache[key].Stored? {
        return cache[key].tasks;
      }
      tasks := Load(u, dbUp);
    }
  }

  /** Three adds number 1, 2, 3; deleting position 2 renumbers the survivors 1, 2 in creation order. */
  method DeleteScenario() returns (afterDelete: seq<Task>)
    ensures |afterDelete| == 2
    ensures afterDelete[0].text == "buy milk" && afterDelete[0].position == 1
    ensures afterDelete[1].text == "pay rent" && afterDelete[1].position == 2
  {
    var s := new TaskStore();
    var p1 := s.Save(1, "buy milk", true);
    var p2 := s.Save(1, "call mom", true);
    var p3 := s.Save(1, "pay rent", true);
    assert p1 == Some(1) && p2 == Some(2) && p3 == Some(3);
    var deleted := s.Delete(1, 2, true);
    assert deleted;
    afterDelete := s.Get(1, true);
  }

  /** Positions outside `1..N` are not found: neither marked done nor deleted. */
  method MissingScenario() returns (marked: bool, deleted: bool)
    ensures !marked && !deleted
  {
    var s := new TaskStore();
    var p1 := s.Save(1, "buy milk", true);
    marked := s.MarkDone(1, 99, true);
    deleted := s.Delete(1, 0, true);
  }

  /** Clearing one user reports its count and leaves another user's task alone. */
  method ClearScenario() returns (cleared: nat, theirs: seq<Task>)
    ensures cleared == 2
    ensures |theirs| == 1 && theirs[0].text == "walk dog" && theirs[0].position == 1
  {
    var s := new TaskStore();
    var p1 := s.Save(1, "buy milk", true);
    var p2 := s.Save(1, "call mom", true);
    assert |Owned(s.rows, 1)| == 2 && Owned(s.rows, 2) == [];
    var other := s.Save(2, "walk dog", true);
    assert |Owned(s.rows, 1)| == 2 && |Owned(s.rows, 2)| == 1;
    var ok;
    ok, cleared := s.ClearAll(1, true);
    assert Owned(s.rows, 2)[0].text == "walk dog" && Owned(s.rows, 2)[0].pos == 1;
    theirs := s.Get(2, true);
  }
}
