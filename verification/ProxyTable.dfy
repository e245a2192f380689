/** The meaning of the SQLite table `proxies`: rows in id order, unique addresses and an
    AUTOINCREMENT counter that never goes down. Every statement is one atomic step. */
module ProxyTable {
  import opened Text

  datatype Key = Key(protocol: string, ip: string, port: int)

  datatype Row = Row(id: int, key: Key, country: string, lastTestAt: int, latencyMs: int,
                     createdAt: int, updatedAt: int)

  datatype Table = Table(rows: seq<Row>, lastId: int)

  /** The fields `UpsertUsableProxy` insists on. */
  predicate Complete(key: Key) {
    !IsBlank(key.protocol) && !IsBlank(key.ip) && key.port > 0
  }

  ghost predicate SortedById(rows: seq<Row>) {
    forall i, j :: 0 <= i < j < |rows| ==> rows[i].id < rows[j].id
  }

  ghost predicate DistinctKeys(rows: seq<Row>) {
    forall i, j :: 0 <= i < j < |rows| ==> rows[i].key != rows[j].key
  }

  ghost predicate Valid(t: Table) {
    && SortedById(t.rows) && DistinctKeys(t.rows) && t.lastId >= 0
    && forall i :: 0 <= i < |t.rows| ==>
         1 <= t.rows[i].id <= t.lastId && Complete(t.rows[i].key) && t.rows[i].latencyMs >= 0
  }

  ghost function Ids(rows: seq<Row>): set<int> {
    set i | 0 <= i < |rows| :: rows[i].id
  }

  ghost function Keys(rows: seq<Row>): set<Key> {
    set i | 0 <= i < |rows| :: rows[i].key
  }

  predicate HasKey(rows: seq<Row>, key: Key) {
    exists i :: 0 <= i < |rows| && rows[i].key == key
  }

  /** `Duration.Milliseconds`, with negative results replaced by 0. */
  function Millis(nanos: int): nat {
    if nanos < 0 then 0 else nanos / 1_000_000
  }

  /** Whole milliseconds, and never less than none. */
  lemma {:induction false} MillisAreWhole(nanos: int)
    ensures nanos >= 0 ==> Millis(nanos) * 1_000_000 <= nanos < (Millis(nanos) + 1) * 1_000_000
    ensures nanos < 0 ==> Millis(nanos) == 0
  {
  }

  /** What a passed test writes: where, when and how fast. */
  datatype Report = Report(key: Key, country: string, testedAt: int, latency: int, now: int)

  /** The conflict clause: refresh the row that has the address, keeping its id and creation time. */
  function Refresh(rows: seq<Row>, r: Report): seq<Row> {
    if rows == [] then []
    else
      [if rows[0].key == r.key
       then rows[0].(country := r.country, lastTestAt := r.testedAt,
                     latencyMs := Millis(r.latency), updatedAt := r.now)
       else rows[0]] + Refresh(rows[1..], r)
  }

  function Without(rows: seq<Row>, ids: set<int>): seq<Row> {
    if rows == [] then []
    else if rows[0].id in ids then Without(rows[1..], ids)
    else [rows[0]] + Without(rows[1..], ids)
  }

  function SetOf(ids: seq<int>): set<int> {
    set i | 0 <= i < |ids| :: ids[i]
  }

  function Positive(ids: seq<int>): set<int> {
    set id | id in SetOf(ids) && id > 0
  }

  /** The statements that change the table. `skip` is how many ids the statement burns. */
  datatype Op =
    | Upsert(report: Report, skip: nat)
    | DeleteOne(id: int)
    | DeleteMany(ids: seq<int>)
    | NoChange

  /** A statement that fails, or is refused before it is sent, changes nothing. */
  function Apply(t: Table, op: Op): Table {
    match op
    case Upsert(r, skip) =>
      if !Complete(r.key) then t
      else if HasKey(t.rows, r.key) then Table(Refresh(t.rows, r), t.lastId + skip)
      else
        var id := t.lastId + 1 + skip;
        Table(t.rows + [Row(id, r.key, r.country, r.testedAt, Millis(r.latency), r.now, r.now)], id)
    case DeleteOne(id) => if id <= 0 then t else t.(rows := Without(t.rows, {id}))
    case DeleteMany(ids) => t.(rows := Without(t.rows, Positive(ids)))
    case NoChange => t
  }

  function Run(t: Table, ops: seq<Op>): Table
    decreases ops
  {
    if ops == [] then t else Run(Apply(t, ops[0]), ops[1..])
  }

  // ----- the invariant -----

  lemma {:induction false} RefreshKeepsIdentity(rows: seq<Row>, r: Report)
    ensures |Refresh(rows, r)| == |rows|
    ensures forall i :: 0 <= i < |rows| ==> SameIdentity(rows[i], Refresh(rows, r)[i])
    ensures forall i :: 0 <= i < |rows| && rows[i].latencyMs >= 0 ==> Refresh(rows, r)[i].latencyMs >= 0
  {
    if rows != [] {
      RefreshKeepsIdentity(rows[1..], r);
    }
  }

  /** Exactly the rows whose id is not listed are left. */
  lemma {:induction false} WithoutIsExact(rows: seq<Row>, ids: set<int>)
    ensures forall r :: r in Without(rows, ids) <==> r in rows && r.id !in ids
  {
    if rows != [] {
      WithoutIsExact(rows[1..], ids);
      assert forall r :: r in rows <==> r == rows[0] || r in rows[1..];
    }
  }

  lemma {:induction false} WithoutKeepsOrder(rows: seq<Row>, ids: set<int>)
    requires SortedById(rows)
    ensures SortedById(Without(rows, ids))
  {
    if rows != [] {
      var rest := Without(rows[1..], ids);
      assert SortedById(rest) by {
        assert SortedById(rows[1..]);
        WithoutKeepsOrder(rows[1..], ids);
      }
      forall j | 0 <= j < |rest| ensures rows[0].id < rest[j].id {
        WithoutIsExact(rows[1..], ids);
        assert rest[j] in rest;
        var k :| 0 <= k < |rows[1..]| && rows[1..][k] == rest[j];
      }
      SortedCons(rows[0], rest);
    }
  }

  lemma {:induction false} SortedCons(row: Row, rest: seq<Row>)
    requires SortedById(rest) && forall j :: 0 <= j < |rest| ==> row.id < rest[j].id
    ensures SortedById([row] + rest)
  {
  }

  lemma {:induction false} WithoutKeepsDistinct(rows: seq<Row>, ids: set<int>)
    requires DistinctKeys(rows)
    ensures DistinctKeys(Without(rows, ids))
  {
    if rows != [] {
      WithoutKeepsDistinct(rows[1..], ids);
      var rest := Without(rows[1..], ids);
      forall j | 0 <= j < |rest| ensures rows[0].key != rest[j].key {
        WithoutIsExact(rows[1..], ids);
        assert rest[j] in rest;
        var k :| 0 <= k < |rows[1..]| && rows[1..][k] == rest[j];
      }
    }
  }

  lemma {:induction false} WithoutKeepsValid(t: Table, ids: set<int>)
    requires Valid(t)
    ensures var u := t.(rows := Without(t.rows, ids)); Valid(u) && Follows(t, u)
  {
    var rows := Without(t.rows, ids);
    WithoutKeepsOrder(t.rows, ids);
    WithoutKeepsDistinct(t.rows, ids);
    forall j | 0 <= j < |rows|
      ensures 1 <= rows[j].id <= t.lastId && Complete(rows[j].key) && rows[j].latencyMs >= 0
      ensures Kept(t.rows, rows[j])
    {
      WithoutIsExact(t.rows, ids);
      assert rows[j] in rows;
      var i :| 0 <= i < |t.rows| && t.rows[i] == rows[j];
      assert SameIdentity(t.rows[i], rows[j]);
    }
  }

  lemma {:induction false} RefreshKeepsValid(t: Table, r: Report, skip: nat)
    requires Valid(t)
    ensures var u := Table(Refresh(t.rows, r), t.lastId + skip); Valid(u) && Follows(t, u)
  {
    RefreshKeepsIdentity(t.rows, r);
  }

  lemma {:induction false} InsertKeepsValid(t: Table, row: Row)
    requires Valid(t) && Complete(row.key) && !HasKey(t.rows, row.key)
    requires row.id > t.lastId && row.latencyMs >= 0
    ensures var u := Table(t.rows + [row], row.id); Valid(u) && Follows(t, u)
  {
  }

  /** What one statement keeps: the invariant; and the table it leaves follows the one before. */
  lemma {:induction false} ApplyKeepsValid(t: Table, op: Op)
    requires Valid(t)
    ensures Valid(Apply(t, op)) && Follows(t, Apply(t, op))
  {
    match op
    case Upsert(r, skip) =>
      if !Complete(r.key) {
        FollowsRefl(t);
      } else if HasKey(t.rows, r.key) {
        RefreshKeepsValid(t, r, skip);
      } else {
        InsertKeepsValid(t, Apply(t, op).rows[|t.rows|]);
      }
    case DeleteOne(id) => FollowsRefl(t); WithoutKeepsValid(t, {id});
    case DeleteMany(ids) => WithoutKeepsValid(t, Positive(ids));
    case NoChange => FollowsRefl(t);
  }

  /** A batch delete leaves exactly the rows whose id is not listed, whatever else is listed. */
  lemma {:induction false} DeletesExactly(t: Table, ids: seq<int>)
    requires Valid(t)
    ensures var u := Apply(t, DeleteMany(ids));
            Valid(u) && u.lastId == t.lastId && forall r :: r in u.rows <==> r in t.rows && r.id !in ids
  {
    ApplyKeepsValid(t, DeleteMany(ids));
    WithoutIsExact(t.rows, Positive(ids));
    forall r | r in t.rows ensures r.id in Positive(ids) <==> r.id in ids {
      var i :| 0 <= i < |t.rows| && t.rows[i] == r;
      if r.id in ids {
        var k :| 0 <= k < |ids| && ids[k] == r.id;
        assert ids[k] in SetOf(ids);
      }
    }
  }

  /** An accepted report ends up in exactly one row. An address already in the pool keeps its id,
      creation time and place; a new one goes last under an id never issued before. No other row
      changes. */
  lemma {:induction false} UpsertRecords(t: Table, r: Report, skip: nat) returns (i: nat)
    requires Valid(t) && Complete(r.key)
    ensures var u := Apply(t, Upsert(r, skip));
            && i < |u.rows| && |u.rows| == |t.rows| + (if HasKey(t.rows, r.key) then 0 else 1)
            && u.rows[i].key == r.key && u.rows[i].country == r.country
            && u.rows[i].lastTestAt == r.testedAt && u.rows[i].latencyMs == Millis(r.latency)
            && u.rows[i].updatedAt == r.now
            && (forall j :: 0 <= j < |t.rows| && j != i ==> u.rows[j] == t.rows[j])
            && (if HasKey(t.rows, r.key) then i < |t.rows| && SameIdentity(t.rows[i], u.rows[i])
                else i == |t.rows| && u.rows[i].id > t.lastId && u.rows[i].createdAt == r.now)
  {
    if HasKey(t.rows, r.key) {
      i :| 0 <= i < |t.rows| && t.rows[i].key == r.key;
      RefreshAt(t.rows, r, i);
    } else {
      i := |t.rows|;
    }
  }

  lemma {:induction false} RefreshMisses(rows: seq<Row>, r: Report)
    requires forall k :: 0 <= k < |rows| ==> rows[k].key != r.key
    ensures Refresh(rows, r) == rows
  {
    if rows != [] {
      RefreshMisses(rows[1..], r);
    }
  }

  lemma {:induction false} WithoutMisses(rows: seq<Row>, ids: set<int>)
    requires forall k :: 0 <= k < |rows| ==> rows[k].id !in ids
    ensures Without(rows, ids) == rows
  {
    if rows != [] {
      WithoutMisses(rows[1..], ids);
    }
  }

  lemma {:induction false} RefreshAt(rows: seq<Row>, r: Report, i: nat)
    requires DistinctKeys(rows) && i < |rows| && rows[i].key == r.key
    ensures Refresh(rows, r) == rows[i := rows[i].(country := r.country, lastTestAt := r.testedAt,
                                                   latencyMs := Millis(r.latency), updatedAt := r.now)]
  {
    if i == 0 {
      RefreshMisses(rows[1..], r);
    } else {
      RefreshAt(rows[1..], r, i - 1);
    }
  }

  /** Rows of `u` are rows of `t` under the same id, address and creation time, or carry ids that
      `t` had not yet issued. */
  ghost predicate Follows(t: Table, u: Table) {
    && t.lastId <= u.lastId
    && forall j :: 0 <= j < |u.rows| && u.rows[j].id <= t.lastId ==> Kept(t.rows, u.rows[j])
  }

  ghost predicate Kept(rows: seq<Row>, r: Row) {
    exists i :: 0 <= i < |rows| && SameIdentity(rows[i], r)
  }

  ghost predicate SameIdentity(a: Row, b: Row) {
    a.id == b.id && a.key == b.key && a.createdAt == b.createdAt
  }

  lemma {:induction false} FollowsRefl(t: Table)
    ensures Follows(t, t)
  {
  }

  lemma {:induction false} FollowsTrans(t: Table, u: Table, v: Table)
    requires Follows(t, u) && Follows(u, v)
    ensures Follows(t, v)
  {
  }

  /** The pool invariant, over every interleaving of fetches, retests and admin deletes. */
  lemma {:induction false} RunKeepsValid(t: Table, ops: seq<Op>)
    requires Valid(t)
    ensures Valid(Run(t, ops)) && Follows(t, Run(t, ops))
    decreases ops
  {
    if ops == [] {
      FollowsRefl(t);
    } else {
      ApplyKeepsValid(t, ops[0]);
      RunKeepsValid(Apply(t, ops[0]), ops[1..]);
      FollowsTrans(t, Apply(t, ops[0]), Run(t, ops));
    }
  }

  ghost predicate Retired(t: Table, id: int) {
    id <= t.lastId && id !in Ids(t.rows)
  }

  /** An id that has been issued and is gone never comes back. */
  lemma {:induction false} RetiredForever(t: Table, ops: seq<Op>, id: int)
    requires Valid(t) && Retired(t, id)
    ensures Retired(Run(t, ops), id)
  {
    RunKeepsValid(t, ops);
    var u := Run(t, ops);
    forall j | 0 <= j < |u.rows| ensures u.rows[j].id != id {
      if u.rows[j].id <= t.lastId {
        var i :| 0 <= i < |t.rows| && SameIdentity(t.rows[i], u.rows[j]);
        assert t.rows[i].id in Ids(t.rows);
      }
    }
  }

  /** Whatever happens meanwhile, an id names one address: the row a worker or the rotator listed
      and a later row with that id agree. */
  lemma {:induction false} IdNamesOneAddress(t: Table, ops: seq<Op>, i: nat, j: nat)
    requires Valid(t) && i < |t.rows| && j < |Run(t, ops).rows|
    requires t.rows[i].id == Run(t, ops).rows[j].id
    ensures SameIdentity(t.rows[i], Run(t, ops).rows[j])
  {
    RunKeepsValid(t, ops);
    var r := Run(t, ops).rows[j];
    var k :| 0 <= k < |t.rows| && SameIdentity(t.rows[k], r);
    assert k == i;
  }

  lemma {:induction false} KeptMeansSameId(rows: seq<Row>, r: Row, i: nat)
    requires DistinctKeys(rows) && i < |rows| && rows[i].key == r.key
    ensures Kept(rows, r) ==> rows[i].id == r.id
  {
  }

  /** A retest that listed a row and finds it failing later removes that row only: an address
      re-inserted meanwhile has a newer id and stays, untouched. */
  lemma {:induction false} StaleFailureSparesNewRow(t: Table, ops: seq<Op>, i: nat, j: nat)
    requires Valid(t) && i < |t.rows| && j < |Run(t, ops).rows|
    requires t.rows[i].key == Run(t, ops).rows[j].key && t.rows[i].id != Run(t, ops).rows[j].id
    ensures Run(t, ops).rows[j].id > t.lastId
    ensures Run(t, ops).rows[j] in Apply(Run(t, ops), DeleteOne(t.rows[i].id)).rows
  {
    RunKeepsValid(t, ops);
    var r := Run(t, ops).rows[j];
    KeptMeansSameId(t.rows, r, i);
    WithoutIsExact(Run(t, ops).rows, {t.rows[i].id});
  }

  lemma {:induction false} RefreshConcat(a: seq<Row>, b: seq<Row>, r: Report)
    ensures Refresh(a + b, r) == Refresh(a, r) + Refresh(b, r)
  {
    if a == [] {
      assert a + b == b;
    } else {
      RefreshConcat(a[1..], b, r);
      HeadAndTail(a, b);
      Regroup(Refresh([a[0]], r), Refresh(a[1..], r), Refresh(b, r));
    }
  }

  lemma {:induction false} WithoutConcat(a: seq<Row>, b: seq<Row>, ids: set<int>)
    ensures Without(a + b, ids) == Without(a, ids) + Without(b, ids)
  {
    if a == [] {
      assert a + b == b;
    } else {
      WithoutConcat(a[1..], b, ids);
      HeadAndTail(a, b);
      Regroup([a[0]], Without(a[1..], ids), Without(b, ids));
    }
  }

  lemma {:induction false} HeadAndTail(a: seq<Row>, b: seq<Row>)
    requires a != []
    ensures a + b != [] && (a + b)[0] == a[0] && (a + b)[1..] == a[1..] + b
  {
  }

  lemma {:induction false} Regroup(a: seq<Row>, b: seq<Row>, c: seq<Row>)
    ensures a + (b + c) == a + b + c
  {
  }

  // ----- addresses -----

  lemma {:induction false} KeysAfterApply(t: Table, op: Op)
    ensures op.Upsert? && Complete(op.report.key) ==>
              Keys(Apply(t, op).rows) == Keys(t.rows) + {op.report.key}
    ensures !op.Upsert? || !Complete(op.report.key) ==> Keys(Apply(t, op).rows) <= Keys(t.rows)
  {
    var u := Apply(t, op);
    if op.Upsert? && Complete(op.report.key) {
      if HasKey(t.rows, op.report.key) {
        RefreshKeepsIdentity(t.rows, op.report);
      } else {
        assert u.rows[|t.rows|].key == op.report.key;
        assert forall i :: 0 <= i < |t.rows| ==> u.rows[i] == t.rows[i];
      }
      forall k ensures k in Keys(u.rows) <==> k in Keys(t.rows) + {op.report.key} {
        if k in Keys(t.rows) {
          var i :| 0 <= i < |t.rows| && t.rows[i].key == k;
          assert u.rows[i].key == k;
        }
      }
    } else if op.DeleteOne? {
      WithoutKeys(t.rows, {op.id});
    } else if op.DeleteMany? {
      WithoutKeys(t.rows, Positive(op.ids));
    }
  }

  lemma {:induction false} WithoutKeys(rows: seq<Row>, ids: set<int>)
    ensures Keys(Without(rows, ids)) <= Keys(rows)
  {
    WithoutIsExact(rows, ids);
    var left := Without(rows, ids);
    forall j | 0 <= j < |left| ensures left[j].key in Keys(rows) {
      assert left[j] in left;
    }
  }

  /** A deleted address is only ever brought back by a later report for it, e.g. from a retest
      that was already testing it. */
  lemma {:induction false} OnlyReportsBringBack(t: Table, ops: seq<Op>, key: Key)
    requires key !in Keys(t.rows)
    requires forall i :: 0 <= i < |ops| && ops[i].Upsert? ==> ops[i].report.key != key
    ensures key !in Keys(Run(t, ops).rows)
    decreases ops
  {
    if ops != [] {
      KeysAfterApply(t, ops[0]);
      OnlyReportsBringBack(Apply(t, ops[0]), ops[1..], key);
    }
  }

  predicate Reports(op: Op, key: Key) {
    op.Upsert? && op.report.key == key && Complete(key)
  }

  /** The statement deletes the row with this id if there is one. */
  predicate Deletes(op: Op, id: int) {
    id > 0 && ((op.DeleteOne? && op.id == id) || (op.DeleteMany? && id in Positive(op.ids)))
  }

  lemma {:induction false} RunSnoc(t: Table, ops: seq<Op>, op: Op)
    ensures Run(t, ops + [op]) == Apply(Run(t, ops), op)
    decreases ops
  {
    if ops == [] {
      assert Run(t, [op]) == Run(Apply(t, op), [op][1..]);
    } else {
      assert (ops + [op])[1..] == ops[1..] + [op];
      RunSnoc(Apply(t, ops[0]), ops[1..], op);
    }
  }

  /** One statement: a row stays, under its id, exactly unless it is deleted. */
  lemma {:induction false} RowStays(t: Table, op: Op, i: nat)
    requires Valid(t) && i < |t.rows|
    ensures Kept(Apply(t, op).rows, t.rows[i]) <==> !Deletes(op, t.rows[i].id)
  {
    var row, u := t.rows[i], Apply(t, op);
    match op
    case Upsert(r, skip) =>
      RefreshKeepsIdentity(t.rows, r);
      assert u.rows[i] in u.rows && SameIdentity(u.rows[i], row);
    case DeleteOne(id) => StaysUnlessListed(t.rows, {id}, i);
    case DeleteMany(ids) => StaysUnlessListed(t.rows, Positive(ids), i);
    case NoChange => assert SameIdentity(t.rows[i], row);
  }

  lemma {:induction false} StaysUnlessListed(rows: seq<Row>, ids: set<int>, i: nat)
    requires i < |rows|
    ensures Kept(Without(rows, ids), rows[i]) <==> rows[i].id !in ids
  {
    var left := Without(rows, ids);
    WithoutIsExact(rows, ids);
    if rows[i].id !in ids {
      assert rows[i] in left;
      var k :| 0 <= k < |left| && left[k] == rows[i];
      assert SameIdentity(left[k], rows[i]);
    }
    assert forall k :: 0 <= k < |left| ==> left[k] in left;
  }

  /** The i-th statement reports the address, and nothing deletes the row it then has. */
  ghost predicate BringsBack(t: Table, ops: seq<Op>, key: Key, i: nat, id: int) {
    && i < |ops| && Reports(ops[i], key)
    && NamedSo(Run(t, ops[..i + 1]).rows, key, id)
    && forall j :: i < j < |ops| ==> !Deletes(ops[j], id)
  }

  ghost predicate NamedSo(rows: seq<Row>, key: Key, id: int) {
    exists k :: 0 <= k < |rows| && rows[k].key == key && rows[k].id == id
  }

  lemma {:induction false} StaysNamed(t: Table, op: Op, key: Key, id: int)
    requires Valid(t) && NamedSo(t.rows, key, id)
    ensures !Deletes(op, id) ==> NamedSo(Apply(t, op).rows, key, id)
    ensures Deletes(op, id) ==> key !in Keys(Apply(t, op).rows)
  {
    var k :| 0 <= k < |t.rows| && t.rows[k].key == key && t.rows[k].id == id;
    RowStays(t, op, k);
    var u := Apply(t, op);
    if Deletes(op, id) {
      var ids := if op.DeleteOne? then {op.id} else Positive(op.ids);
      WithoutIsExact(t.rows, ids);
      forall j | 0 <= j < |u.rows| ensures u.rows[j].key != key {
        assert u.rows[j] in u.rows && u.rows[j] in t.rows;
        assert t.rows[k].id in ids;
      }
    }
  }

  /** An absent address is there at the end of a run if and only if some statement of the run reports
      it, from a fetch or a retest, and nothing later in the run deletes the row it has from then on. */
  lemma {:induction false} BroughtBackExactly(t: Table, ops: seq<Op>, key: Key)
    requires Valid(t) && key !in Keys(t.rows)
    ensures key in Keys(Run(t, ops).rows) <==> exists i, id :: BringsBack(t, ops, key, i, id)
    decreases |ops|
  {
    hide Apply, Valid, Positive;
    if ops != [] {
      var n := |ops| - 1;
      var init, op := ops[..n], ops[n];
      var u, v := Run(t, init), Run(t, ops);
      assert ops == init + [op];
      RunSnoc(t, init, op);
      RunKeepsValid(t, init);
      BroughtBackExactly(t, init, key);
      KeysAfterApply(u, op);
      if i, id :| BringsBack(t, ops, key, i, id) {
        BackIsThere(t, ops, key, i, id);
      }
      if key in Keys(v.rows) {
        if Reports(op, key) {
          var k :| 0 <= k < |v.rows| && v.rows[k].key == key;
          assert ops[..n + 1] == ops;
          assert BringsBack(t, ops, key, n, v.rows[k].id);
        } else {
          var i, id :| BringsBack(t, init, key, i, id);
          BackIsThere(t, init, key, i, id);
          StaysNamed(u, op, key, id);
          assert ops[..i + 1] == init[..i + 1];
          assert BringsBack(t, ops, key, i, id);
        }
      }
    }
  }

  lemma {:induction false} BackIsThere(t: Table, ops: seq<Op>, key: Key, i: nat, id: int)
    requires Valid(t) && BringsBack(t, ops, key, i, id)
    ensures NamedSo(Run(t, ops).rows, key, id) && key in Keys(Run(t, ops).rows)
    decreases |ops|
  {
    var n := |ops| - 1;
    if i == n {
      assert ops[..n + 1] == ops;
    } else {
      var init := ops[..n];
      assert init[..i + 1] == ops[..i + 1] && ops == init + [ops[n]];
      BackIsThere(t, init, key, i, id);
      RunKeepsValid(t, init);
      StaysNamed(Run(t, init), ops[n], key, id);
      RunSnoc(t, init, ops[n]);
    }
  }

  lemma {:induction false} CountKeys(rows: seq<Row>)
    requires DistinctKeys(rows)
    ensures |Keys(rows)| == |rows|
  {
    if rows != [] {
      var init, last := rows[..|rows| - 1], rows[|rows| - 1];
      CountKeys(init);
      assert Keys(rows) == Keys(init) + {last.key} by {
        assert forall i :: 0 <= i < |init| ==> rows[i].key in Keys(init) by {
          assert forall i :: 0 <= i < |init| ==> init[i].key in Keys(init);
        }
      }
      assert last.key !in Keys(init);
    }
  }
}
