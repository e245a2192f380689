/** The store over one database connection: each method is one atomic statement or transaction.
    `fault` parameters say which calls the database makes fail. */
module ProxyStore {
  import opened Text
  import opened ProxyTable

  const CHUNK_SIZE: nat := 900

  ghost predicate Distinct(s: seq<int>) {
    forall i, j :: 0 <= i < j < |s| ==> s[i] != s[j]
  }

  function Flatten(batches: seq<seq<int>>): seq<int> {
    if batches == [] then [] else Flatten(batches[..|batches| - 1]) + batches[|batches| - 1]
  }

  class Store {
    var table: Table

    constructor (initial: Table)
      ensures table == initial
    {
      table := initial;
    }

    method UpsertUsableProxy(report: Report, skip: nat, fault: bool) returns (ok: bool)
      modifies this
      ensures ok <==> !fault && TrimSpace(report.key.protocol) != "" && TrimSpace(report.key.ip) != "" && report.key.port > 0
      ensures table == Apply(old(table), if fault then NoChange else Upsert(report, skip))
      ensures !ok ==> table == old(table)
    {
      hide TrimSpace;
      BlankMeansNothingLeft(report.key.protocol);
      BlankMeansNothingLeft(report.key.ip);
      if !Complete(report.key) || fault {
        return false;
      }
      if HasKey(table.rows, report.key) {
        table := Table(Refresh(table.rows, report), table.lastId + skip);
      } else {
        var id := table.lastId + 1 + skip;
        var row := Row(id, report.key, report.country, report.testedAt, Millis(report.latency), report.now, report.now);
        table := Table(table.rows + [row], id);
      }
      return true;
    }

    /** An id that cannot exist is no error and is not even sent. */
    method DeleteProxyByID(id: int, fault: bool) returns (ok: bool)
      modifies this
      ensures ok <==> id <= 0 || !fault
      ensures table == Apply(old(table), if fault then NoChange else DeleteOne(id))
      ensures table.lastId == old(table).lastId && (!ok ==> table == old(table))
      ensures forall r :: r in table.rows <==> r in old(table).rows && (r.id != id || id <= 0 || fault)
    {
      WithoutIsExact(table.rows, {id});
      if id <= 0 {
        return true;
      }
      if fault {
        return false;
      }
      table := table.(rows := Without(table.rows, {id}));
      return true;
    }

    method ListProxies(fault: bool) returns (ok: bool, list: seq<Row>)
      ensures ok <==> !fault
      ensures list == if ok then table.rows else []
    {
      if fault { return false, []; }
      return true, table.rows;
    }

    method ListProxiesPage(limit: int, offset: int, fault: bool) returns (ok: bool, list: seq<Row>)
      ensures ok <==> limit <= 0 || !fault
      ensures list == if ok then Window(table.rows, limit, offset) else []
      ensures var from := if offset < 0 then 0 else offset;
              && |list| == (if fault || limit <= 0 || from >= |table.rows| then 0
                            else if limit < |table.rows| - from then limit else |table.rows| - from)
              && forall i :: 0 <= i < |list| ==> list[i] == table.rows[from + i]
    {
      if limit <= 0 { return true, []; }
      if fault { return false, []; }
      return true, Window(table.rows, limit, offset);
    }

    method CountProxies(fault: bool) returns (ok: bool, n: nat)
      ensures ok <==> !fault
      ensures n == if ok then |table.rows| else 0
    {
      if fault { return false, 0; }
      return true, |table.rows|;
    }

    /** Deletes in batches inside one transaction. On success exactly the rows whose id is not
        listed remain and the count is exact; any failure leaves the table as it was. The batches
        sent are non-empty, at most CHUNK_SIZE long and name each positive id once. */
    method DeleteProxiesByIDs(ids: seq<int>, beginFault: bool, batchFault: nat -> bool, commitFault: bool)
        returns (total: int, ok: bool, ghost batches: seq<seq<int>>)
      modifies this
      ensures ok ==> table == Apply(old(table), DeleteMany(ids))
      ensures ok && Valid(old(table)) ==>
                && Valid(table) && table.lastId == old(table).lastId
                && forall r :: r in table.rows <==> r in old(table).rows && r.id !in ids
      ensures ok ==> total == |old(table).rows| - |table.rows|
      ensures !ok ==> table == old(table) && total == 0
      ensures forall b :: 0 <= b < |batches| ==> 1 <= |batches[b]| <= 900
      ensures Distinct(Flatten(batches))
      ensures ok ==> SetOf(Flatten(batches)) == Positive(ids)
      ensures ok <==> (Positive(ids) == {} ||
                (!beginFault && !commitFault && forall b: nat :: b < |batches| ==> !batchFault(b)))
    {
      hide Apply, Valid;
      AppliesDelete(table, ids);
      WithoutNothing(table.rows);
      if |ids| == 0 {
        assert Positive(ids) == {};
        return 0, true, [];
      }
      var filtered := PositiveOnce(ids);
      if |filtered| == 0 {
        assert Positive(ids) == SetOf(filtered) == {};
        return 0, true, [];
      }
      assert filtered[0] in SetOf(filtered);
      if beginFault {
        return 0, false, [];
      }
      var work;
      total, work, ok, batches := DeleteInBatches(table.rows, filtered, batchFault);
      if !ok || commitFault {
        return 0, false, batches;
      }
      table := table.(rows := work);
    }
  }

  lemma {:induction false} AppliesDelete(t: Table, ids: seq<int>)
    ensures Apply(t, DeleteMany(ids)) == t.(rows := Without(t.rows, Positive(ids)))
    ensures Valid(t) ==>
              && Valid(Apply(t, DeleteMany(ids)))
              && forall r :: r in Apply(t, DeleteMany(ids)).rows <==> r in t.rows && r.id !in ids
  {
    if Valid(t) {
      DeletesExactly(t, ids);
    }
  }

  /** The statements of the transaction, on its private view of the rows. */
  method DeleteInBatches(rows: seq<Row>, filtered: seq<int>, batchFault: nat -> bool)
      returns (total: int, work: seq<Row>, ok: bool, ghost batches: seq<seq<int>>)
    requires Distinct(filtered)
    ensures ok ==> work == Without(rows, SetOf(filtered)) && total == |rows| - |work|
    ensures forall b :: 0 <= b < |batches| ==> 1 <= |batches[b]| <= CHUNK_SIZE
    ensures Distinct(Flatten(batches))
    ensures ok ==> Flatten(batches) == filtered
    ensures ok <==> forall b: nat :: b < |batches| ==> !batchFault(b)
  {
    hide Without;
    work, total, batches := rows, 0, [];
    var i := 0;
    assert filtered[..0] == [] && SetOf([]) == {};
    WithoutNothing(rows);
    while i < |filtered|
      invariant 0 <= i <= |filtered|
      invariant i < |filtered| ==> i == CHUNK_SIZE * |batches|
      invariant work == Without(rows, SetOf(filtered[..i]))
      invariant total == |rows| - |work|
      invariant Flatten(batches) == filtered[..i]
      invariant forall b :: 0 <= b < |batches| ==> 1 <= |batches[b]| <= CHUNK_SIZE
      invariant forall b: nat :: b < |batches| ==> !batchFault(b)
    {
      var end := if i + CHUNK_SIZE > |filtered| then |filtered| else i + CHUNK_SIZE;
      var chunk := filtered[i..end];
      ghost var sent := |batches|;
      FlattenSnoc(batches, chunk);
      batches := batches + [chunk];
      assert filtered[..i] + chunk == filtered[..end];
      if batchFault(i / CHUNK_SIZE) {
        assert i / CHUNK_SIZE == sent;
        return 0, work, false, batches;
      }
      var left := Without(work, SetOf(chunk));
      assert left == Without(rows, SetOf(filtered[..end])) by {
        WithoutTwice(rows, SetOf(filtered[..i]), SetOf(chunk));
        SetOfConcat(filtered[..i], chunk);
      }
      total := total + |work| - |left|;
      work := left;
      i := end;
    }
    assert filtered[..i] == filtered;
    return total, work, true, batches;
  }

  lemma {:induction false} FlattenSnoc(batches: seq<seq<int>>, chunk: seq<int>)
    ensures Flatten(batches + [chunk]) == Flatten(batches) + chunk
  {
  }

  /** Keeps the first occurrence of each positive id. */
  method PositiveOnce(ids: seq<int>) returns (filtered: seq<int>)
    ensures Distinct(filtered) && SetOf(filtered) == Positive(ids)
  {
    var uniq: set<int> := {};
    filtered := [];
    for k := 0 to |ids|
      invariant uniq == SetOf(filtered) == Positive(ids[..k])
      invariant Distinct(filtered)
    {
      assert ids[..k + 1] == ids[..k] + [ids[k]];
      SetOfConcat(ids[..k], [ids[k]]);
      assert SetOf([ids[k]]) == {ids[k]} by { assert [ids[k]][0] == ids[k]; }
      if ids[k] <= 0 || ids[k] in uniq {
        continue;
      }
      uniq := uniq + {ids[k]};
      SetOfConcat(filtered, [ids[k]]);
      assert forall j :: 0 <= j < |filtered| ==> filtered[j] in SetOf(filtered);
      filtered := filtered + [ids[k]];
    }
    assert ids[..|ids|] == ids;
  }

  function FromRow(offset: int): nat {
    if offset < 0 then 0 else offset
  }

  /** `LIMIT limit OFFSET offset`, a negative offset counting as 0. */
  function Window(rows: seq<Row>, limit: int, offset: int): seq<Row> {
    var from := if FromRow(offset) > |rows| then |rows| else FromRow(offset);
    var to := if limit <= 0 then from else if from + limit > |rows| then |rows| else from + limit;
    rows[from..to]
  }

  lemma {:induction false} SetOfConcat(a: seq<int>, b: seq<int>)
    ensures SetOf(a + b) == SetOf(a) + SetOf(b)
  {
    forall x ensures x in SetOf(a + b) <==> x in SetOf(a) + SetOf(b) {
      if x in SetOf(a) {
        var i :| 0 <= i < |a| && a[i] == x;
        assert (a + b)[i] == x;
      } else if x in SetOf(b) {
        var i :| 0 <= i < |b| && b[i] == x;
        assert (a + b)[|a| + i] == x;
      }
    }
  }

  lemma {:induction false} WithoutNothing(rows: seq<Row>)
    ensures Without(rows, {}) == rows
  {
    if rows != [] {
      WithoutNothing(rows[1..]);
    }
  }

  /** Deleting in two batches is deleting the union. */
  lemma {:induction false} WithoutTwice(rows: seq<Row>, a: set<int>, b: set<int>)
    ensures Without(Without(rows, a), b) == Without(rows, a + b)
  {
    if rows != [] {
      WithoutTwice(rows[1..], a, b);
      var rest := Without(rows[1..], a);
      assert ([rows[0]] + rest)[1..] == rest;
    }
  }
}
