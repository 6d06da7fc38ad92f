/** The store repository: the `stores`, `store_events` and `audit_log`
    tables as an in-memory map of records plus the order rows were inserted
    in, with the database clock (`datetime('now')`, in seconds) as part of
    the state. Every query is one SELECT of the source; every write one
    INSERT or UPDATE. */
module StoreDb {
  import opened Common

  datatype Status = Provisioning | Ready | Failed | Deleting | Deleted
  datatype Engine = WooCommerce | Medusa

  /** One row of `stores`. */
  datatype Store = Store(
    id: Id,
    name: string,
    engine: Engine,
    status: Status,
    namespace: string,
    storeUrl: Option<string>,
    adminUrl: Option<string>,
    errorMessage: Option<string>,
    createdAt: nat,
    updatedAt: nat,
    readyAt: Option<nat>,
    deletedAt: Option<nat>)

  datatype EventType = Info | Success | Error

  /** One row of `store_events`; `id` is the AUTOINCREMENT key. */
  datatype StoreEvent = StoreEvent(id: nat, storeId: Id, eventType: EventType, message: string, createdAt: nat)

  /** The structured `details` payload the orchestrator attaches. */
  datatype AuditDetails =
    | CreateDetails(name: string, engine: Engine, namespace: string)
    | DeleteDetails(name: string, engine: Engine)

  /** One row of `audit_log`. */
  datatype AuditEntry = AuditEntry(id: nat, storeId: Option<Id>, action: string,
                                   details: Option<AuditDetails>, ipAddress: Option<string>, createdAt: nat)

  datatype Db = Db(stores: map<Id, Store>, order: seq<Id>, events: seq<StoreEvent>,
                   audit: seq<AuditEntry>, clock: nat)

  const EmptyDb: Db := Db(map[], [], [], [], 0)

  /** `deleted_at IS NULL`. */
  predicate Visible(s: Store) {
    s.deletedAt.None?
  }

  /** JavaScript truthiness of an optional string (`x || null`). */
  function OrNull(s: Option<string>): (r: Option<string>)
    ensures r.Some? <==> s.Some? && s.value != ""
    ensures r.Some? ==> r == s
  {
    if s.Some? && s.value != "" then s else None
  }

  // ---------------------------------------------------------------------
  // Ordering helpers
  // ---------------------------------------------------------------------

  function StoreTime(s: Store): nat { s.createdAt }
  function EventTime(e: StoreEvent): nat { e.createdAt }
  function AuditTime(a: AuditEntry): nat { a.createdAt }
  function EventRowid(e: StoreEvent): nat { e.id }
  function AuditRowid(a: AuditEntry): nat { a.id }

  ghost predicate Ascending<T>(s: seq<T>, key: T -> nat) {
    forall i, j :: 0 <= i < j < |s| ==> key(s[i]) <= key(s[j])
  }

  /** `ORDER BY created_at DESC`. */
  ghost predicate Descending<T>(s: seq<T>, key: T -> nat) {
    forall i, j :: 0 <= i < j < |s| ==> key(s[i]) >= key(s[j])
  }

  lemma ReverseAscending<T>(s: seq<T>, key: T -> nat)
    requires Ascending(s, key)
    ensures Descending(Reverse(s), key)
  {
    var r := Reverse(s);
    forall i, j | 0 <= i < j < |r| ensures key(r[i]) >= key(r[j]) {
      assert r[i] == s[|s| - 1 - i] && r[j] == s[|s| - 1 - j];
    }
  }

  lemma ReverseMembers<T>(s: seq<T>)
    ensures forall x :: x in Reverse(s) <==> x in s
  {
    var r := Reverse(s);
    forall x | x in s ensures x in r {
      var k :| 0 <= k < |s| && s[k] == x;
      assert r[|s| - 1 - k] == x;
    }
  }

  /** Keep the elements that satisfy `p`, in order. */
  function Filter<T(!new)>(s: seq<T>, p: T -> bool): (r: seq<T>)
    ensures |r| <= |s|
    ensures forall x :: x in r <==> x in s && p(x)
    decreases |s|
  {
    if |s| == 0 then []
    else if p(s[0]) then [s[0]] + Filter(s[1..], p)
    else Filter(s[1..], p)
  }

  /** A WHERE clause no row satisfies selects nothing. */
  lemma FilterNone<T(!new)>(s: seq<T>, p: T -> bool)
    requires forall x :: x in s ==> !p(x)
    ensures Filter(s, p) == []
  {
  }

  /** A WHERE clause over two runs of rows is the clause over each run. */
  lemma {:induction false} FilterAppend<T(!new)>(a: seq<T>, b: seq<T>, p: T -> bool)
    ensures Filter(a + b, p) == Filter(a, p) + Filter(b, p)
    decreases |a|
  {
    if |a| > 0 {
      assert (a + b)[1..] == a[1..] + b;
      FilterAppend(a[1..], b, p);
    } else {
      assert a + b == b;
    }
  }

  lemma {:induction false} FilterAscending<T(!new)>(s: seq<T>, p: T -> bool, key: T -> nat)
    requires Ascending(s, key)
    ensures Ascending(Filter(s, p), key)
    decreases |s|
  {
    if |s| > 0 {
      var tail := s[1..];
      assert Ascending(tail, key) by {
        forall i, j | 0 <= i < j < |tail| ensures key(tail[i]) <= key(tail[j]) {
          assert tail[i] == s[i + 1] && tail[j] == s[j + 1];
        }
      }
      FilterAscending(tail, p, key);
      if p(s[0]) {
        FilterAfterHead(s, p, key);
        ConsAscending(s[0], Filter(tail, p), key);
      }
    }
  }

  /** Every row the clause keeps from the tail is no older than the head. */
  lemma FilterAfterHead<T(!new)>(s: seq<T>, p: T -> bool, key: T -> nat)
    requires |s| > 0 && Ascending(s, key)
    ensures forall x :: x in Filter(s[1..], p) ==> key(s[0]) <= key(x)
  {
    forall x | x in Filter(s[1..], p) ensures key(s[0]) <= key(x) {
      var k :| 0 <= k < |s[1..]| && s[1..][k] == x;
      assert s[k + 1] == x;
    }
  }

  lemma ConsAscending<T>(x: T, rest: seq<T>, key: T -> nat)
    requires Ascending(rest, key)
    requires forall y :: y in rest ==> key(x) <= key(y)
    ensures Ascending([x] + rest, key)
  {
    var r := [x] + rest;
    forall i, j | 0 <= i < j < |r| ensures key(r[i]) <= key(r[j]) {
      if i == 0 {
        assert r[j] == rest[j - 1];
        assert rest[j - 1] in rest;
      } else {
        assert r[i] == rest[i - 1] && r[j] == rest[j - 1];
      }
    }
  }

  // ---------------------------------------------------------------------
  // Representation invariant
  // ---------------------------------------------------------------------

  ghost predicate NoDuplicates(ids: seq<Id>) {
    forall i, j :: 0 <= i < j < |ids| ==> ids[i] != ids[j]
  }

  // ---------------------------------------------------------------------
  // ORDER BY created_at DESC LIMIT n, as SQLite runs it
  // ---------------------------------------------------------------------

  /** The order `ORDER BY created_at DESC LIMIT n` produces on a table with
      no index on `created_at`: newer rows first, and among rows stamped in
      the same second the one with the lower rowid first, because the
      sorter breaks ties by the order the scan fed it rows in. */
  predicate RanksBefore<T>(a: T, b: T, time: T -> nat, rowid: T -> nat) {
    time(a) > time(b) || (time(a) == time(b) && rowid(a) <= rowid(b))
  }

  ghost predicate NewestOrder<T>(s: seq<T>, time: T -> nat, rowid: T -> nat) {
    forall i, j :: 0 <= i < j < |s| ==> RanksBefore(s[i], s[j], time, rowid)
  }

  /** What the query returns, stated without the sort: `limit` rows of
      `all` (every row for a negative limit), in query order, and every row
      left out ranks after every row returned. */
  ghost predicate TopRows<T>(all: seq<T>, limit: int, r: seq<T>, time: T -> nat, rowid: T -> nat) {
    && (limit >= 0 ==> |r| == Min(limit, |all|))
    && (limit < 0 ==> |r| == |all|)
    && multiset(r) <= multiset(all)
    && NewestOrder(r, time, rowid)
    && forall e, i :: e in multiset(all) - multiset(r) && 0 <= i < |r| ==> RanksBefore(r[i], e, time, rowid)
  }

  /** Put `x` in front of the first row it ranks before. */
  function InsertNewest<T>(x: T, s: seq<T>, time: T -> nat, rowid: T -> nat): (r: seq<T>)
    ensures multiset(r) == multiset(s) + multiset{x}
  {
    if |s| == 0 then [x]
    else if RanksBefore(x, s[0], time, rowid) then [x] + s
    else
      assert s == [s[0]] + s[1..];
      [s[0]] + InsertNewest(x, s[1..], time, rowid)
  }

  lemma {:induction false} InsertNewestOrdered<T>(x: T, s: seq<T>, time: T -> nat, rowid: T -> nat)
    requires NewestOrder(s, time, rowid)
    ensures NewestOrder(InsertNewest(x, s, time, rowid), time, rowid)
    decreases |s|
  {
    if |s| > 0 && RanksBefore(x, s[0], time, rowid) {
      var r := [x] + s;
      forall i, j | 0 <= i < j < |r| ensures RanksBefore(r[i], r[j], time, rowid) {
        if i == 0 && j > 1 {
          assert RanksBefore(s[0], s[j - 1], time, rowid);
        } else if i > 0 {
          assert r[i] == s[i - 1] && r[j] == s[j - 1];
        }
      }
    } else if |s| > 0 {
      var tail := s[1..];
      assert NewestOrder(tail, time, rowid) by {
        forall i, j | 0 <= i < j < |tail| ensures RanksBefore(tail[i], tail[j], time, rowid) {
          assert tail[i] == s[i + 1] && tail[j] == s[j + 1];
        }
      }
      InsertNewestOrdered(x, tail, time, rowid);
      var t := InsertNewest(x, tail, time, rowid);
      forall k | 0 <= k < |t| ensures RanksBefore(s[0], t[k], time, rowid) {
        assert t[k] in multiset(t);
        if t[k] != x {
          assert t[k] in multiset(tail);
          var m :| 0 <= m < |tail| && tail[m] == t[k];
          assert s[m + 1] == t[k];
        }
      }
      var r := [s[0]] + t;
      assert r == InsertNewest(x, s, time, rowid);
      forall i, j | 0 <= i < j < |r| ensures RanksBefore(r[i], r[j], time, rowid) {
        if i == 0 {
          assert r[j] == t[j - 1];
        } else {
          assert r[i] == t[i - 1] && r[j] == t[j - 1];
        }
      }
    }
  }

  /** The sorter: every row, in query order. */
  function SortNewest<T>(s: seq<T>, time: T -> nat, rowid: T -> nat): (r: seq<T>)
    ensures multiset(r) == multiset(s)
    ensures NewestOrder(r, time, rowid)
  {
    if |s| == 0 then []
    else
      var rest := SortNewest(s[1..], time, rowid);
      InsertNewestOrdered(s[0], rest, time, rowid);
      assert s == [s[0]] + s[1..];
      InsertNewest(s[0], rest, time, rowid)
  }

  /** The query order is newest first. */
  lemma NewestOrderDescending<T>(s: seq<T>, time: T -> nat, rowid: T -> nat)
    requires NewestOrder(s, time, rowid)
    ensures Descending(s, time)
  {
    forall i, j | 0 <= i < j < |s| ensures time(s[i]) >= time(s[j]) {
      assert RanksBefore(s[i], s[j], time, rowid);
    }
  }

  /** Rows stamped in the same second, inserted in rowid order, come out in
      that order: the oldest of them first. */
  lemma {:induction false} SameSecondInRowidOrder<T>(s: seq<T>, time: T -> nat, rowid: T -> nat)
    requires forall i, j :: 0 <= i < j < |s| ==> time(s[i]) == time(s[j]) && rowid(s[i]) < rowid(s[j])
    ensures SortNewest(s, time, rowid) == s
    decreases |s|
  {
    if |s| > 0 {
      var tail := s[1..];
      forall i, j | 0 <= i < j < |tail| ensures time(tail[i]) == time(tail[j]) && rowid(tail[i]) < rowid(tail[j]) {
        assert tail[i] == s[i + 1] && tail[j] == s[j + 1];
      }
      SameSecondInRowidOrder(tail, time, rowid);
      if |tail| > 0 {
        assert tail[0] == s[1];
        assert RanksBefore(s[0], tail[0], time, rowid);
      }
      assert s == [s[0]] + tail;
    }
  }

  /** The top rows are rows of the table, and with no limit they are all
      of them. */
  lemma TopRowsMembers<T>(all: seq<T>, limit: int, r: seq<T>, time: T -> nat, rowid: T -> nat)
    requires TopRows(all, limit, r, time, rowid)
    ensures forall e :: e in r ==> e in all
    ensures limit < 0 ==> forall e :: e in all ==> e in r
  {
    forall e | e in r ensures e in all {
      assert e in multiset(r);
    }
    if limit < 0 {
      assert multiset(all) == multiset(r) + (multiset(all) - multiset(r));
      forall e | e in all ensures e in r {
        assert e in multiset(all);
      }
    }
  }

  /** Cutting the sorted rows at the limit keeps the top rows. */
  lemma SortedLimitIsTop<T>(all: seq<T>, limit: int, time: T -> nat, rowid: T -> nat)
    ensures TopRows(all, limit, SqlLimit(SortNewest(all, time, rowid), limit), time, rowid)
  {
    var sorted := SortNewest(all, time, rowid);
    var r := SqlLimit(sorted, limit);
    var n := |r|;
    assert r == sorted[..n];
    assert sorted == r + sorted[n..];
    assert multiset(sorted) == multiset(r) + multiset(sorted[n..]);
    forall e, i | e in multiset(all) - multiset(r) && 0 <= i < |r|
      ensures RanksBefore(r[i], e, time, rowid)
    {
      assert e in multiset(sorted[n..]);
      var k :| 0 <= k < |sorted[n..]| && sorted[n..][k] == e;
      assert sorted[n + k] == e && r[i] == sorted[i];
    }
    forall i, j | 0 <= i < j < |r| ensures RanksBefore(r[i], r[j], time, rowid) {
      assert r[i] == sorted[i] && r[j] == sorted[j];
    }
  }

  /** What SQLite guarantees of the tables: the primary key is the map key,
      `order` lists every row once, `created_at` never runs ahead of the clock
      and grows with insertion order, AUTOINCREMENT keys count from 1, and a
      row whose status is `Deleted` has its `deleted_at` stamped. */
  ghost predicate WellFormed(db: Db) {
    StoresWellFormed(db) && LogsWellFormed(db)
  }

  /** The conjuncts of `WellFormed` about the store table. */
  ghost predicate StoresWellFormed(db: Db) {
    && (forall id :: id in db.stores ==> db.stores[id].id == id)
    && NoDuplicates(db.order)
    && (forall i :: 0 <= i < |db.order| ==> db.order[i] in db.stores)
    && (forall id :: id in db.stores ==> id in db.order)
    && (forall id :: id in db.stores ==> db.stores[id].createdAt <= db.clock)
    && (forall i, j :: 0 <= i < j < |db.order| && db.order[i] in db.stores && db.order[j] in db.stores ==>
          db.stores[db.order[i]].createdAt <= db.stores[db.order[j]].createdAt)
    && (forall id :: id in db.stores && db.stores[id].status == Deleted ==> db.stores[id].deletedAt.Some?)
  }

  /** The conjuncts of `WellFormed` about the event and audit tables. */
  ghost predicate LogsWellFormed(db: Db) {
    && (forall i :: 0 <= i < |db.events| ==> db.events[i].id == i + 1 && db.events[i].createdAt <= db.clock)
    && Ascending(db.events, EventTime)
    && (forall i :: 0 <= i < |db.audit| ==> db.audit[i].id == i + 1 && db.audit[i].createdAt <= db.clock)
    && Ascending(db.audit, AuditTime)
  }

  lemma EmptyDbWellFormed()
    ensures WellFormed(EmptyDb)
  {
  }

  /** The database clock moves forward. */
  function Tick(db: Db, seconds: nat): (r: Db)
    ensures r.clock == db.clock + seconds
    ensures r.stores == db.stores && r.order == db.order && r.events == db.events && r.audit == db.audit
    ensures WellFormed(db) ==> WellFormed(r)
  {
    db.(clock := db.clock + seconds)
  }

  // ---------------------------------------------------------------------
  // Row selection: the WHERE clauses of the queries
  // ---------------------------------------------------------------------

  datatype Where =
    | AllRows                          // no WHERE
    | VisibleRows                      // deleted_at IS NULL
    | DeletedRows                      // deleted_at IS NOT NULL
    | QuotaRows                        // deleted_at IS NULL AND status != 'Failed'
    | VisibleWithStatus(status: Status)  // deleted_at IS NULL AND status = ?
    | VisibleNamed(name: string)       // name = ? AND deleted_at IS NULL

  predicate Matches(w: Where, s: Store) {
    match w
    case AllRows => true
    case VisibleRows => Visible(s)
    case DeletedRows => !Visible(s)
    case QuotaRows => Visible(s) && s.status != Failed
    case VisibleWithStatus(st) => Visible(s) && s.status == st
    case VisibleNamed(n) => Visible(s) && s.name == n
  }

  /** A table scan in insertion order keeping the rows `w` selects. */
  function Select(stores: map<Id, Store>, ids: seq<Id>, w: Where): (r: seq<Store>)
    ensures |r| <= |ids|
    ensures forall s :: s in r ==> Matches(w, s)
    decreases |ids|
  {
    if |ids| == 0 then []
    else if ids[0] in stores && Matches(w, stores[ids[0]]) then [stores[ids[0]]] + Select(stores, ids[1..], w)
    else Select(stores, ids[1..], w)
  }

  /** Every row the scan yields is selected by `w` and stored under one of
      the scanned keys. */
  lemma {:induction false} SelectSound(stores: map<Id, Store>, ids: seq<Id>, w: Where, s: Store)
    requires s in Select(stores, ids, w)
    ensures Matches(w, s)
    ensures exists k :: 0 <= k < |ids| && ids[k] in stores && stores[ids[k]] == s
    decreases |ids|
  {
    if !(ids[0] in stores && stores[ids[0]] == s && Matches(w, s)) {
      SelectSound(stores, ids[1..], w, s);
      var k :| 0 <= k < |ids[1..]| && ids[1..][k] in stores && stores[ids[1..][k]] == s;
      assert ids[k + 1] == ids[1..][k];
    }
  }

  /** Every scanned key whose row `w` selects is yielded. */
  lemma {:induction false} SelectComplete(stores: map<Id, Store>, ids: seq<Id>, w: Where, k: nat)
    requires k < |ids| && ids[k] in stores && Matches(w, stores[ids[k]])
    ensures stores[ids[k]] in Select(stores, ids, w)
    decreases |ids|
  {
    if k > 0 {
      assert ids[1..][k - 1] == ids[k];
      SelectComplete(stores, ids[1..], w, k - 1);
    }
  }

  /** The keys a scan selects. */
  function MatchingKeys(stores: map<Id, Store>, ids: seq<Id>, w: Where): (r: set<Id>)
    ensures forall id :: id in r ==> id in stores && Matches(w, stores[id])
    decreases |ids|
  {
    if |ids| == 0 then {}
    else if ids[0] in stores && Matches(w, stores[ids[0]]) then {ids[0]} + MatchingKeys(stores, ids[1..], w)
    else MatchingKeys(stores, ids[1..], w)
  }

  lemma {:induction false} MatchingKeysScanned(stores: map<Id, Store>, ids: seq<Id>, w: Where, id: Id)
    ensures id in MatchingKeys(stores, ids, w) <==> id in ids && id in stores && Matches(w, stores[id])
    decreases |ids|
  {
    if |ids| > 0 {
      MatchingKeysScanned(stores, ids[1..], w, id);
      assert id in ids <==> id == ids[0] || id in ids[1..];
    }
  }

  /** Counting the scan is counting the selected primary keys. */
  lemma {:induction false} SelectCountsKeys(stores: map<Id, Store>, ids: seq<Id>, w: Where)
    requires NoDuplicates(ids)
    ensures |Select(stores, ids, w)| == |MatchingKeys(stores, ids, w)|
    decreases |ids|
  {
    if |ids| > 0 {
      var tail := ids[1..];
      assert NoDuplicates(tail) by {
        forall i, j | 0 <= i < j < |tail| ensures tail[i] != tail[j] {
          assert tail[i] == ids[i + 1] && tail[j] == ids[j + 1];
        }
      }
      SelectCountsKeys(stores, tail, w);
      assert ids[0] !in tail by {
        forall k | 0 <= k < |tail| ensures tail[k] != ids[0] {
          assert tail[k] == ids[k + 1];
        }
      }
      MatchingKeysScanned(stores, tail, w, ids[0]);
    }
  }

  /** No two records of the list share an id. */
  ghost predicate DistinctIds(r: seq<Store>) {
    forall i, j :: 0 <= i < j < |r| ==> r[i].id != r[j].id
  }

  /** A scan over a duplicate-free key list yields each record at most
      once: no two rows it returns share an id. */
  lemma {:induction false} SelectDistinct(stores: map<Id, Store>, ids: seq<Id>, w: Where)
    requires NoDuplicates(ids)
    requires forall id :: id in stores ==> stores[id].id == id
    ensures DistinctIds(Select(stores, ids, w))
    decreases |ids|
  {
    if |ids| > 0 {
      var tail := ids[1..];
      assert NoDuplicates(tail) by {
        forall i, j | 0 <= i < j < |tail| ensures tail[i] != tail[j] {
          assert tail[i] == ids[i + 1] && tail[j] == ids[j + 1];
        }
      }
      SelectDistinct(stores, tail, w);
      if ids[0] in stores && Matches(w, stores[ids[0]]) {
        var rest := Select(stores, tail, w);
        var r := [stores[ids[0]]] + rest;
        forall j | 0 < j < |r| ensures r[j].id != ids[0] {
          assert r[j] == rest[j - 1];
          assert rest[j - 1] in rest;
          SelectSound(stores, tail, w, rest[j - 1]);
          var k :| 0 <= k < |tail| && tail[k] in stores && stores[tail[k]] == rest[j - 1];
          assert tail[k] == ids[k + 1];
        }
        forall i, j | 0 <= i < j < |r| ensures r[i].id != r[j].id {
          if i == 0 {
            assert r[0].id == ids[0];
          } else {
            assert r[i] == rest[i - 1] && r[j] == rest[j - 1];
          }
        }
        assert Select(stores, ids, w) == r;
      } else {
        assert Select(stores, ids, w) == Select(stores, tail, w);
      }
    }
  }

  /** The scan keeps insertion order, so rows come out oldest first. */
  lemma {:induction false} SelectAscending(stores: map<Id, Store>, ids: seq<Id>, w: Where)
    requires forall i, j :: 0 <= i < j < |ids| && ids[i] in stores && ids[j] in stores ==>
               stores[ids[i]].createdAt <= stores[ids[j]].createdAt
    ensures Ascending(Select(stores, ids, w), StoreTime)
    decreases |ids|
  {
    if |ids| > 0 {
      var tail := ids[1..];
      assert forall i :: 0 <= i < |tail| ==> tail[i] == ids[i + 1];
      SelectAscending(stores, tail, w);
      var rest := Select(stores, tail, w);
      if ids[0] in stores && Matches(w, stores[ids[0]]) {
        var head := stores[ids[0]];
        forall x | x in rest ensures head.createdAt <= x.createdAt {
          SelectSound(stores, tail, w, x);
          var k :| 0 <= k < |tail| && tail[k] in stores && stores[tail[k]] == x;
          assert tail[k] == ids[k + 1];
        }
        var r := [head] + rest;
        forall i, j | 0 <= i < j < |r| ensures StoreTime(r[i]) <= StoreTime(r[j]) {
          if i == 0 {
            assert r[j] == rest[j - 1];
            assert rest[j - 1] in rest;
          } else {
            assert r[i] == rest[i - 1] && r[j] == rest[j - 1];
          }
        }
      }
    }
  }

  /** The rows of the whole table that `w` selects, in insertion order. */
  function Rows(db: Db, w: Where): seq<Store> {
    Select(db.stores, db.order, w)
  }

  /** The keys of the whole table whose rows `w` selects. */
  ghost function KeysWhere(db: Db, w: Where): set<Id> {
    set id | id in db.stores && Matches(w, db.stores[id])
  }

  /** In a well-formed table, a scan finds exactly the records `w` selects. */
  lemma RowsComplete(db: Db, w: Where, s: Store)
    requires WellFormed(db)
    ensures s in Rows(db, w) <==> s.id in db.stores && db.stores[s.id] == s && Matches(w, s)
  {
    if s in Rows(db, w) {
      SelectSound(db.stores, db.order, w, s);
    }
    if s.id in db.stores && db.stores[s.id] == s && Matches(w, s) {
      var k :| 0 <= k < |db.order| && db.order[k] == s.id;
      SelectComplete(db.stores, db.order, w, k);
    }
  }

  /** In a well-formed table, a scan counts exactly the keys `w` selects. */
  lemma RowsCount(db: Db, w: Where)
    requires WellFormed(db)
    ensures |Rows(db, w)| == |KeysWhere(db, w)|
  {
    SelectCountsKeys(db.stores, db.order, w);
    forall id ensures id in MatchingKeys(db.stores, db.order, w) <==> id in KeysWhere(db, w) {
      MatchingKeysScanned(db.stores, db.order, w, id);
    }
    assert MatchingKeys(db.stores, db.order, w) == KeysWhere(db, w);
  }

  /** `RowsComplete`, `RowsCount` and the insertion order of a scan, stated
      for any table and holding of the well-formed ones. */
  lemma RowsFacts(db: Db, w: Where)
    ensures WellFormed(db) ==>
              forall s :: s in Rows(db, w) <==> s.id in db.stores && db.stores[s.id] == s && Matches(w, s)
    ensures WellFormed(db) ==> |Rows(db, w)| == |KeysWhere(db, w)|
    ensures WellFormed(db) ==> Ascending(Rows(db, w), StoreTime)
  {
    if WellFormed(db) {
      forall s ensures s in Rows(db, w) <==> s.id in db.stores && db.stores[s.id] == s && Matches(w, s) {
        RowsComplete(db, w, s);
      }
      RowsCount(db, w);
      SelectAscending(db.stores, db.order, w);
    }
  }

  // ---------------------------------------------------------------------
  // Store queries
  // ---------------------------------------------------------------------

  /** `getStore`: the record with this id, unless it is soft-deleted. */
  function GetStore(db: Db, id: Id): (r: Option<Store>)
    ensures r.Some? <==> id in db.stores && Visible(db.stores[id])
    ensures r.Some? ==> r.value == db.stores[id]
  {
    if id in db.stores && Visible(db.stores[id]) then Some(db.stores[id]) else None
  }

  /** `getStoreByName`: the first visible record with this name. */
  function GetStoreByName(db: Db, name: string): (r: Option<Store>)
    ensures r.Some? ==> r.value.name == name && Visible(r.value)
    ensures r.Some? ==> exists k :: 0 <= k < |db.order| && db.order[k] in db.stores && db.stores[db.order[k]] == r.value
    ensures WellFormed(db) ==>
              (r.Some? <==> exists id :: id in db.stores && Visible(db.stores[id]) && db.stores[id].name == name)
  {
    var hits := Rows(db, VisibleNamed(name));
    RowsFacts(db, VisibleNamed(name));
    if |hits| == 0 then None
    else
      assert hits[0] in hits;
      SelectSound(db.stores, db.order, VisibleNamed(name), hits[0]);
      Some(hits[0])
  }

  /** `getAllStores`: every visible record, newest first. */
  function GetAllStores(db: Db): (r: seq<Store>)
    ensures forall s :: s in r ==> Visible(s)
    ensures WellFormed(db) ==> forall s :: s in r <==> s.id in db.stores && db.stores[s.id] == s && Visible(s)
    ensures WellFormed(db) ==> |r| == |set id | id in db.stores && Visible(db.stores[id])|
    ensures WellFormed(db) ==> Descending(r, StoreTime)
  {
    var rows := Rows(db, VisibleRows);
    ReverseMembers(rows);
    VisibleListing(db);
    Reverse(rows)
  }

  lemma VisibleListing(db: Db)
    ensures WellFormed(db) ==>
              forall s :: s in Rows(db, VisibleRows) <==> s.id in db.stores && db.stores[s.id] == s && Visible(s)
    ensures WellFormed(db) ==> |Rows(db, VisibleRows)| == |set id | id in db.stores && Visible(db.stores[id])|
    ensures WellFormed(db) ==> Descending(Reverse(Rows(db, VisibleRows)), StoreTime)
  {
    if WellFormed(db) {
      var rows := Rows(db, VisibleRows);
      RowsFacts(db, VisibleRows);
      assert KeysWhere(db, VisibleRows) == set id | id in db.stores && Visible(db.stores[id]);
      ReverseAscending(rows, StoreTime);
    }
  }

  /** `getActiveStoreCount`: the records that hold quota, i.e. visible and
      not `Failed`. */
  function GetActiveStoreCount(db: Db): (r: nat)
    ensures WellFormed(db) ==>
              r == |set id | id in db.stores && Visible(db.stores[id]) && db.stores[id].status != Failed|
  {
    RowsFacts(db, QuotaRows);
    assert KeysWhere(db, QuotaRows) == set id | id in db.stores && Visible(db.stores[id]) && db.stores[id].status != Failed;
    |Rows(db, QuotaRows)|
  }

  /** `getProvisioningStores`: the visible records still `Provisioning`, in
      table order. */
  function GetProvisioningStores(db: Db): (r: seq<Store>)
    ensures forall s :: s in r ==> s.status == Provisioning && Visible(s)
  {
    Rows(db, VisibleWithStatus(Provisioning))
  }

  /** On a well-formed table the snapshot holds every `Provisioning` record,
      once each, oldest first. */
  lemma ProvisioningStoresComplete(db: Db)
    requires WellFormed(db)
    ensures forall s :: s in GetProvisioningStores(db) <==>
              s.id in db.stores && db.stores[s.id] == s && s.status == Provisioning && Visible(s)
    ensures |GetProvisioningStores(db)| == |set id | id in db.stores && Visible(db.stores[id]) && db.stores[id].status == Provisioning|
    ensures Ascending(GetProvisioningStores(db), StoreTime)
    ensures DistinctIds(GetProvisioningStores(db))
  {
    RowsFacts(db, VisibleWithStatus(Provisioning));
    SelectDistinct(db.stores, db.order, VisibleWithStatus(Provisioning));
    assert KeysWhere(db, VisibleWithStatus(Provisioning))
        == set id | id in db.stores && Visible(db.stores[id]) && db.stores[id].status == Provisioning;
  }

  // ---------------------------------------------------------------------
  // Store writes
  // ---------------------------------------------------------------------

  /** The fields `createStore` is given. */
  datatype NewStore = NewStore(id: Id, name: string, engine: Engine, status: Option<Status>,
                               namespace: string, storeUrl: Option<string>, adminUrl: Option<string>)

  /** The fields of a record no write ever changes after the insert. */
  ghost predicate SameIdentity(a: Store, b: Store) {
    a.id == b.id && a.name == b.name && a.engine == b.engine && a.namespace == b.namespace && a.createdAt == b.createdAt
  }

  /** Every record of `db` is still in `r` with the same identity fields, and
      a soft-deleted record stays soft-deleted. */
  ghost predicate KeepsRecords(db: Db, r: Db) {
    && (forall id :: id in db.stores ==> id in r.stores && SameIdentity(db.stores[id], r.stores[id]))
    && (forall id :: id in db.stores && !Visible(db.stores[id]) ==> !Visible(r.stores[id]))
  }

  const DuplicateIdMessage := "UNIQUE constraint failed: stores.id"

  /** `createStore`: insert one record (status defaults to `Provisioning`,
      falsy URLs are stored as null) and read it back. An id already present,
      even on a soft-deleted row, violates the primary key. */
  function CreateStore(db: Db, s: NewStore): (r: Result<(Db, Store), string>)
    ensures s.id in db.stores <==> r.Err?
    ensures r.Err? ==> r.error == DuplicateIdMessage
    ensures r.Ok? ==> r.value.0 == Insert(db, r.value.1) && GetStore(r.value.0, s.id) == Some(r.value.1)
    ensures r.Ok? ==>
              var rec := r.value.1;
              && rec.id == s.id && rec.name == s.name && rec.engine == s.engine && rec.namespace == s.namespace
              && rec.status == s.status.GetOr(Provisioning)
              && rec.storeUrl == OrNull(s.storeUrl) && rec.adminUrl == OrNull(s.adminUrl)
              && rec.errorMessage.None? && rec.readyAt.None?
              && rec.createdAt == db.clock && rec.updatedAt == db.clock
    ensures r.Ok? ==> KeepsRecords(db, r.value.0)
  {
    if s.id in db.stores then Err(DuplicateIdMessage)
    else
      var rec := Store(s.id, s.name, s.engine, s.status.GetOr(Provisioning), s.namespace,
                       OrNull(s.storeUrl), OrNull(s.adminUrl), None, db.clock, db.clock, None, None);
      InsertKeepsWellFormed(db, rec);
      Ok((Insert(db, rec), rec))
  }

  /** A successful insert of a record not created as `Deleted` keeps the
      table well formed. */
  lemma CreateStoreKeepsWellFormed(db: Db, s: NewStore)
    requires WellFormed(db) && s.status != Some(Deleted)
    ensures CreateStore(db, s).Ok? ==> WellFormed(CreateStore(db, s).value.0)
  {
    if s.id !in db.stores {
      var rec := CreateStore(db, s).value.1;
      InsertKeepsWellFormed(db, rec);
    }
  }

  /** The table with one more row appended. */
  function Insert(db: Db, rec: Store): Db {
    db.(stores := db.stores[rec.id := rec], order := db.order + [rec.id])
  }

  /** Appending an id not yet listed keeps the list free of duplicates. */
  lemma AppendFresh(ids: seq<Id>, id: Id)
    requires NoDuplicates(ids) && id !in ids
    ensures NoDuplicates(ids + [id])
  {
    var r := ids + [id];
    forall i, j | 0 <= i < j < |r| ensures r[i] != r[j] {
      assert r[i] == ids[i];
      if j < |ids| {
        assert r[j] == ids[j];
      }
    }
  }

  /** Appending a fresh row stamped with the clock keeps the table
      well formed. */
  lemma InsertKeepsWellFormed(db: Db, rec: Store)
    requires rec.id !in db.stores && rec.createdAt == db.clock
    ensures WellFormed(db) && (rec.status == Deleted ==> rec.deletedAt.Some?) ==> WellFormed(Insert(db, rec))
    ensures KeepsRecords(db, Insert(db, rec))
  {
    if WellFormed(db) && (rec.status == Deleted ==> rec.deletedAt.Some?) {
      InsertOrdered(db, rec);
      assert LogsWellFormed(Insert(db, rec));
    }
  }

  /** The conjuncts of `WellFormed` about the rowid order, for an append. */
  lemma InsertOrdered(db: Db, rec: Store)
    requires StoresWellFormed(db) && rec.id !in db.stores && rec.createdAt == db.clock
    requires rec.status == Deleted ==> rec.deletedAt.Some?
    ensures StoresWellFormed(Insert(db, rec))
  {
    var r := Insert(db, rec);
    assert rec.id !in db.order;
    AppendFresh(db.order, rec.id);
    forall i, j | 0 <= i < j < |r.order| && r.order[i] in r.stores && r.order[j] in r.stores
      ensures r.stores[r.order[i]].createdAt <= r.stores[r.order[j]].createdAt
    {
      assert r.order[i] == db.order[i];
      assert db.order[i] in db.stores;
      if j < |db.order| {
        assert r.order[j] == db.order[j];
      }
    }
    forall i | 0 <= i < |r.order| ensures r.order[i] in r.stores {
      if i < |db.order| {
        assert r.order[i] == db.order[i];
      }
    }
    forall k | k in r.stores
      ensures r.stores[k].id == k && k in r.order && r.stores[k].createdAt <= r.clock
      ensures r.stores[k].status == Deleted ==> r.stores[k].deletedAt.Some?
    {
      if k != rec.id {
        assert r.stores[k] == db.stores[k];
      }
    }
  }

  /** The optional extras of `updateStoreStatus`. A URL is written only when
      present and non-empty; `errorMessage` is `None` when the key is absent,
      `Some(None)` for an explicit null, and `Some(Some(m))` for a message. */
  datatype Extras = Extras(storeUrl: Option<string>, adminUrl: Option<string>, errorMessage: Option<Option<string>>)

  const NoExtras := Extras(None, None, None)

  /** The row after `UPDATE stores SET ...` at time `now`. */
  function StatusUpdate(s: Store, status: Status, extras: Extras, now: nat): (r: Store)
    ensures SameIdentity(s, r)
    ensures r.status == status && r.updatedAt == now
    ensures r.storeUrl == (if OrNull(extras.storeUrl).Some? then extras.storeUrl else s.storeUrl)
    ensures r.adminUrl == (if OrNull(extras.adminUrl).Some? then extras.adminUrl else s.adminUrl)
    ensures r.errorMessage == (if extras.errorMessage.Some? then extras.errorMessage.value else s.errorMessage)
    ensures r.readyAt == (if status == Ready then Some(now) else s.readyAt)
    ensures r.deletedAt == (if status == Deleted then Some(now) else s.deletedAt)
  {
    s.(status := status,
       updatedAt := now,
       storeUrl := if OrNull(extras.storeUrl).Some? then extras.storeUrl else s.storeUrl,
       adminUrl := if OrNull(extras.adminUrl).Some? then extras.adminUrl else s.adminUrl,
       errorMessage := if extras.errorMessage.Some? then extras.errorMessage.value else s.errorMessage,
       readyAt := if status == Ready then Some(now) else s.readyAt,
       deletedAt := if status == Deleted then Some(now) else s.deletedAt)
  }

  /** Rewriting one existing record in place, keeping its identity, its
      soft deletion and the schema's `deleted_at` rule for `Deleted`, keeps
      the table well formed and keeps every record. */
  lemma RewriteRowKeeps(db: Db, id: Id, rec: Store)
    requires id in db.stores && SameIdentity(db.stores[id], rec)
    requires !Visible(db.stores[id]) ==> !Visible(rec)
    requires rec.status == Deleted ==> rec.deletedAt.Some?
    ensures WellFormed(db) ==> WellFormed(db.(stores := db.stores[id := rec]))
    ensures KeepsRecords(db, db.(stores := db.stores[id := rec]))
  {
    var r := db.(stores := db.stores[id := rec]);
    assert forall k :: k in db.stores ==> k in r.stores && SameIdentity(db.stores[k], r.stores[k]);
    if WellFormed(db) {
      RewriteRowOrdered(db, id, rec);
    }
  }

  /** The store-table conjuncts of `WellFormed` survive an identity-keeping
      rewrite of one record. */
  lemma RewriteRowOrdered(db: Db, id: Id, rec: Store)
    requires StoresWellFormed(db)
    requires id in db.stores && SameIdentity(db.stores[id], rec)
    requires rec.status == Deleted ==> rec.deletedAt.Some?
    ensures StoresWellFormed(db.(stores := db.stores[id := rec]))
  {
    var r := db.(stores := db.stores[id := rec]);
    forall k | k in r.stores
      ensures k in db.stores && r.stores[k].id == k && r.stores[k].createdAt == db.stores[k].createdAt
      ensures r.stores[k].status == Deleted ==> r.stores[k].deletedAt.Some?
    {
      if k != id {
        assert r.stores[k] == db.stores[k];
      }
    }
    forall i, j | 0 <= i < j < |r.order| && r.order[i] in r.stores && r.order[j] in r.stores
      ensures r.stores[r.order[i]].createdAt <= r.stores[r.order[j]].createdAt
    {
      assert r.stores[r.order[i]].createdAt == db.stores[db.order[i]].createdAt;
      assert r.stores[r.order[j]].createdAt == db.stores[db.order[j]].createdAt;
    }
  }

  /** `updateStoreStatus`: rewrite one record (whether or not it is
      soft-deleted; an unknown id updates nothing) and read it back through
      `getStore`. */
  function UpdateStoreStatus(db: Db, id: Id, status: Status, extras: Extras): (r: (Db, Option<Store>))
    ensures id !in db.stores ==> r.0 == db && r.1 == None
    ensures id in db.stores ==> r.0.stores == db.stores[id := StatusUpdate(db.stores[id], status, extras, db.clock)]
    ensures r.0.order == db.order && r.0.events == db.events && r.0.audit == db.audit && r.0.clock == db.clock
    ensures r.1 == GetStore(r.0, id)
    ensures WellFormed(db) ==> WellFormed(r.0)
    ensures KeepsRecords(db, r.0)
  {
    if id !in db.stores then (db, None)
    else
      var rec := StatusUpdate(db.stores[id], status, extras, db.clock);
      RewriteRowKeeps(db, id, rec);
      var db' := db.(stores := db.stores[id := rec]);
      (db', GetStore(db', id))
  }

  /** `markDeleted`: status `Deleted` with `deleted_at` stamped, after which
      the record is invisible. */
  function MarkDeleted(db: Db, id: Id): (r: Db)
    ensures GetStore(r, id) == None
    ensures id !in db.stores ==> r == db
    ensures id in db.stores ==>
              r.stores == db.stores[id := db.stores[id].(status := Deleted, deletedAt := Some(db.clock), updatedAt := db.clock)]
    ensures r.order == db.order && r.events == db.events && r.audit == db.audit && r.clock == db.clock
    ensures WellFormed(db) ==> WellFormed(r)
    ensures KeepsRecords(db, r)
  {
    if id !in db.stores then db
    else
      var rec := db.stores[id].(status := Deleted, deletedAt := Some(db.clock), updatedAt := db.clock);
      RewriteRowKeeps(db, id, rec);
      db.(stores := db.stores[id := rec])
  }

  // ---------------------------------------------------------------------
  // Events and audit log
  // ---------------------------------------------------------------------

  /** `addEvent`: append one event row stamped with the clock. */
  function AddEvent(db: Db, storeId: Id, eventType: EventType, message: string): (r: Db)
    ensures r.events == db.events + [StoreEvent(|db.events| + 1, storeId, eventType, message, db.clock)]
    ensures r.stores == db.stores && r.order == db.order && r.audit == db.audit && r.clock == db.clock
    ensures WellFormed(db) ==> WellFormed(r)
  {
    var r := db.(events := db.events + [StoreEvent(|db.events| + 1, storeId, eventType, message, db.clock)]);
    assert forall i :: 0 <= i < |db.events| ==> r.events[i] == db.events[i];
    r
  }

  /** This store's events in insertion order (`WHERE store_id = ?`). */
  function EventsOf(db: Db, storeId: Id): (r: seq<StoreEvent>)
    ensures forall e :: e in r <==> e in db.events && e.storeId == storeId
  {
    Filter(db.events, OfStore(storeId))
  }

  function OfStore(storeId: Id): StoreEvent -> bool {
    (e: StoreEvent) => e.storeId == storeId
  }

  /** `getStoreEvents`: this store's events in query order, at most `limit`
      of them (all of them for a negative limit). */
  function GetStoreEvents(db: Db, storeId: Id, limit: int): (r: seq<StoreEvent>)
    ensures TopRows(EventsOf(db, storeId), limit, r, EventTime, EventRowid)
    ensures forall e :: e in r ==> e in db.events && e.storeId == storeId
    ensures limit < 0 ==> forall e :: e in db.events && e.storeId == storeId ==> e in r
    ensures Descending(r, EventTime)
  {
    var mine := EventsOf(db, storeId);
    var r := SqlLimit(SortNewest(mine, EventTime, EventRowid), limit);
    SortedLimitIsTop(mine, limit, EventTime, EventRowid);
    NewestOrderDescending(r, EventTime, EventRowid);
    TopRowsMembers(mine, limit, r, EventTime, EventRowid);
    r
  }

  lemma EventsOfStoreAscending(db: Db, mine: seq<StoreEvent>, storeId: Id)
    requires mine == EventsOf(db, storeId)
    ensures WellFormed(db) ==> Ascending(mine, EventTime)
  {
    if WellFormed(db) {
      FilterAscending(db.events, OfStore(storeId), EventTime);
    }
  }

  /** `getAllEvents`: all events in query order, at most `limit`. */
  function GetAllEvents(db: Db, limit: int): (r: seq<StoreEvent>)
    ensures TopRows(db.events, limit, r, EventTime, EventRowid)
    ensures Descending(r, EventTime)
  {
    var r := SqlLimit(SortNewest(db.events, EventTime, EventRowid), limit);
    SortedLimitIsTop(db.events, limit, EventTime, EventRowid);
    NewestOrderDescending(r, EventTime, EventRowid);
    r
  }

  /** `addAuditEntry`: append one audit row; an empty store id or address is
      stored as null. */
  function AddAuditEntry(db: Db, storeId: Option<Id>, action: string, details: Option<AuditDetails>,
                         ipAddress: Option<string>): (r: Db)
    ensures r.audit == db.audit + [AuditEntry(|db.audit| + 1, OrNull(storeId), action, details, OrNull(ipAddress), db.clock)]
    ensures r.stores == db.stores && r.order == db.order && r.events == db.events && r.clock == db.clock
    ensures WellFormed(db) ==> WellFormed(r)
  {
    var r := db.(audit := db.audit + [AuditEntry(|db.audit| + 1, OrNull(storeId), action, details, OrNull(ipAddress), db.clock)]);
    assert forall i :: 0 <= i < |db.audit| ==> r.audit[i] == db.audit[i];
    r
  }

  /** `getAuditLog`: the audit rows in query order, at most `limit`. */
  function GetAuditLog(db: Db, limit: int): (r: seq<AuditEntry>)
    ensures TopRows(db.audit, limit, r, AuditTime, AuditRowid)
    ensures Descending(r, AuditTime)
  {
    var r := SqlLimit(SortNewest(db.audit, AuditTime, AuditRowid), limit);
    SortedLimitIsTop(db.audit, limit, AuditTime, AuditRowid);
    NewestOrderDescending(r, AuditTime, AuditRowid);
    r
  }

  // ---------------------------------------------------------------------
  // Metrics
  // ---------------------------------------------------------------------

  /** The integer part of `getMetrics` (the average provisioning time is not
      modelled). `byStatus` has a key only for statuses that occur. */
  datatype Metrics = Metrics(totalActive: nat, totalCreated: nat, totalDeleted: nat, byStatus: map<Status, nat>)

  const AllStatuses: set<Status> := {Provisioning, Ready, Failed, Deleting, Deleted}

  function CountOf(m: map<Status, nat>, st: Status): nat {
    if st in m then m[st] else 0
  }

  function StatusTotal(m: map<Status, nat>): nat {
    CountOf(m, Provisioning) + CountOf(m, Ready) + CountOf(m, Failed) + CountOf(m, Deleting) + CountOf(m, Deleted)
  }

  /** Every row is either visible or soft-deleted. */
  lemma {:induction false} SplitByVisibility(stores: map<Id, Store>, ids: seq<Id>)
    ensures |Select(stores, ids, AllRows)| == |Select(stores, ids, VisibleRows)| + |Select(stores, ids, DeletedRows)|
    decreases |ids|
  {
    if |ids| > 0 {
      SplitByVisibility(stores, ids[1..]);
    }
  }

  /** Every visible row has exactly one status. */
  lemma {:induction false} SplitByStatus(stores: map<Id, Store>, ids: seq<Id>)
    ensures |Select(stores, ids, VisibleRows)| ==
              |Select(stores, ids, VisibleWithStatus(Provisioning))| + |Select(stores, ids, VisibleWithStatus(Ready))|
            + |Select(stores, ids, VisibleWithStatus(Failed))| + |Select(stores, ids, VisibleWithStatus(Deleting))|
            + |Select(stores, ids, VisibleWithStatus(Deleted))|
    decreases |ids|
  {
    if |ids| > 0 {
      SplitByStatus(stores, ids[1..]);
    }
  }

  lemma EveryStatusListed(st: Status)
    ensures st in AllStatuses
  {
  }

  lemma AllKeys(db: Db)
    ensures (set id | id in db.stores && Matches(AllRows, db.stores[id])) == db.stores.Keys
  {
  }

  /** `getMetrics`: every row ever created is active or deleted, and the
      per-status counts of the active rows add up to the active total. */
  function GetMetrics(db: Db): (r: Metrics)
    ensures r.totalCreated == r.totalActive + r.totalDeleted
    ensures StatusTotal(r.byStatus) == r.totalActive
    ensures forall st :: st in r.byStatus ==> r.byStatus[st] > 0
    ensures forall st :: st in r.byStatus ==> r.byStatus[st] == |Rows(db, VisibleWithStatus(st))|
    ensures forall st :: st !in r.byStatus ==> Rows(db, VisibleWithStatus(st)) == []
    ensures WellFormed(db) ==> r.totalActive == |set id | id in db.stores && Visible(db.stores[id])|
    ensures WellFormed(db) ==> r.totalCreated == |db.stores|
  {
    MetricsTotals(db);
    var byStatus := StatusCounts(db);
    Metrics(|Rows(db, VisibleRows)|, |Rows(db, AllRows)|, |Rows(db, DeletedRows)|, byStatus)
  }

  /** The `GROUP BY status` of the visible rows: one entry per status that
      occurs. */
  function StatusCounts(db: Db): (m: map<Status, nat>)
    ensures forall st :: CountOf(m, st) == |Rows(db, VisibleWithStatus(st))|
    ensures forall st :: st in m ==> m[st] > 0
    ensures forall st :: st !in m ==> Rows(db, VisibleWithStatus(st)) == []
  {
    forall st ensures st in AllStatuses { EveryStatusListed(st); }
    map st | st in AllStatuses && |Rows(db, VisibleWithStatus(st))| > 0 :: |Rows(db, VisibleWithStatus(st))|
  }

  lemma MetricsTotals(db: Db)
    ensures |Rows(db, AllRows)| == |Rows(db, VisibleRows)| + |Rows(db, DeletedRows)|
    ensures |Rows(db, VisibleRows)| ==
              |Rows(db, VisibleWithStatus(Provisioning))| + |Rows(db, VisibleWithStatus(Ready))|
            + |Rows(db, VisibleWithStatus(Failed))| + |Rows(db, VisibleWithStatus(Deleting))|
            + |Rows(db, VisibleWithStatus(Deleted))|
    ensures WellFormed(db) ==> |Rows(db, VisibleRows)| == |set id | id in db.stores && Visible(db.stores[id])|
    ensures WellFormed(db) ==> |Rows(db, AllRows)| == |db.stores|
  {
    SplitByVisibility(db.stores, db.order);
    SplitByStatus(db.stores, db.order);
    VisibleListing(db);
    if WellFormed(db) {
      RowsCount(db, AllRows);
      AllKeys(db);
    }
  }
}
