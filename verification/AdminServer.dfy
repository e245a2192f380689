/** The admin server's proxy list, page by page, and its delete action. */
module AdminServer {
  import opened Text
  import opened HostPort
  import opened ProxyTable
  import opened ProxyStore
  import opened Rotation

  // ----- pages -----

  /** Anything that is not a positive number counts as the default. */
  function ParsePositiveInt(v: string, default': int): int {
    match Atoi(TrimSpace(v))
    case None => default'
    case Some(n) => if n <= 0 then default' else n
  }

  function PageSize(text: string): int {
    var n := ParsePositiveInt(text, 50);
    if n == 10 || n == 50 || n == 100 then n else 50
  }

  function TotalPages(total: nat, size: nat): nat
    requires size > 0
  {
    (total + size - 1) / size
  }

  function ClampPage(page: int, totalPages: nat): int {
    var p := if page > totalPages then totalPages else page;
    if p < 1 then 1 else p
  }

  function Offset(page: int, size: int): int {
    (page - 1) * size
  }

  function Page(rows: seq<Row>, size: int, page: int): seq<Row> {
    Window(rows, size, Offset(page, size))
  }

  /** Pages 1 to k, one after another. */
  function FirstPages(rows: seq<Row>, size: int, k: nat): seq<Row> {
    if k == 0 then [] else FirstPages(rows, size, k - 1) + Page(rows, size, k)
  }

  lemma {:induction false} Grows(a: int, b: int, size: nat)
    requires a <= b
    ensures a * size <= b * size
  {
  }

  lemma {:induction false} CeilingDivision(total: nat, size: nat)
    requires size > 0
    ensures total <= TotalPages(total, size) * size
    ensures total > 0 ==> TotalPages(total, size) >= 1 && Offset(TotalPages(total, size), size) < total
    ensures total == 0 ==> TotalPages(total, size) == 0
  {
  }

  lemma {:induction false} WindowExtends(rows: seq<Row>, size: nat, from: int)
    requires size > 0 && 0 <= from < |rows|
    ensures rows[..from] + Window(rows, size, from) == if from + size <= |rows| then rows[..from + size] else rows
  {
  }

  lemma {:induction false} NextOffset(k: nat, size: nat)
    ensures Offset(k + 1, size) == k * size >= 0
    ensures Offset(k, size) == k * size - size
  {
  }

  lemma {:induction false} FirstPagesArePrefix(rows: seq<Row>, size: nat, k: nat)
    requires size > 0 && Offset(k, size) < |rows|
    ensures FirstPages(rows, size, k) == if Offset(k + 1, size) <= |rows| then rows[..Offset(k + 1, size)] else rows
    decreases k
  {
    hide Offset, Window;
    NextOffset(k, size);
    if k > 0 {
      NextOffset(k - 1, size);
      FirstPagesArePrefix(rows, size, k - 1);
      WindowExtends(rows, size, Offset(k, size));
    } else {
      assert Offset(1, size) == 0 by { NextOffset(0, size); }
    }
  }

  /** Pages 1 to the last concatenate to the whole list: no row is missed, repeated or moved. */
  lemma {:induction false} PagesPartition(rows: seq<Row>, size: nat)
    requires size > 0
    ensures FirstPages(rows, size, TotalPages(|rows|, size)) == rows
  {
    var last := TotalPages(|rows|, size);
    CeilingDivision(|rows|, size);
    NextOffset(last, size);
    if rows != [] {
      FirstPagesArePrefix(rows, size, last);
    }
  }

  /** Every page up to the last has rows on it, and all but the last are full. */
  lemma {:induction false} PagesAreFilled(rows: seq<Row>, size: nat, page: nat)
    requires size > 0 && 1 <= page <= TotalPages(|rows|, size)
    ensures 0 <= Offset(page, size) < |rows| && Page(rows, size, page) != []
    ensures page < TotalPages(|rows|, size) ==> |Page(rows, size, page)| == size
  {
    var last := TotalPages(|rows|, size);
    CeilingDivision(|rows|, size);
    Grows(0, page - 1, size);
    Grows(page - 1, last - 1, size);
    if page < last {
      Grows(page, last - 1, size);
      assert page * size == (page - 1) * size + size;
    }
  }

  /** Whatever is asked for, a non-empty pool is shown from a page that exists. */
  lemma {:induction false} EveryRequestHitsAPage(pageText: string, sizeText: string, total: nat)
    requires total > 0
    ensures PageSize(sizeText) in {10, 50, 100}
    ensures var size := PageSize(sizeText);
            var page := ClampPage(ParsePositiveInt(pageText, 1), TotalPages(total, size));
            1 <= page <= TotalPages(total, size) && 0 <= Offset(page, size) < total
  {
    hide ParsePositiveInt;
    var size: nat := PageSize(sizeText);
    var last := TotalPages(total, size);
    var page := ClampPage(ParsePositiveInt(pageText, 1), last);
    CeilingDivision(total, size);
    assert 1 <= page <= last;
    Grows(0, page - 1, size);
    Grows(page - 1, last - 1, size);
  }

  datatype Item = Item(id: int, protocol: string, country: string, addr: string, testedAt: int, latencyMs: int)

  function ItemOf(r: Row): Item {
    Item(r.id, r.key.protocol, r.country, Addr(r.key.ip, r.key.port), r.lastTestAt, r.latencyMs)
  }

  function ItemsOf(rows: seq<Row>): seq<Item> {
    seq(|rows|, i requires 0 <= i < |rows| => ItemOf(rows[i]))
  }

  datatype View = View(items: seq<Item>, total: nat, page: int, pageSize: int, totalPages: nat)

  /** The view has the rows of its page, in order, from the first to the last there is. */
  ghost predicate Shows(view: View, rows: seq<Row>) {
    var first := (view.page - 1) * view.pageSize;
    && (forall i :: 0 <= i < |view.items| ==> 0 <= first + i < |rows| && Describes(view.items[i], rows[first + i]))
    && |view.items| <= view.pageSize
    && (|view.items| < view.pageSize ==> first + |view.items| >= |rows|)
  }

  ghost predicate Describes(item: Item, row: Row) {
    && item.id == row.id && item.protocol == row.key.protocol && item.country == row.country
    && item.addr == row.key.ip + ":" + Itoa(row.key.port)
    && item.testedAt == row.lastTestAt && item.latencyMs == row.latencyMs
  }

  lemma {:induction false} ShowsPage(view: View, rows: seq<Row>)
    requires view.page >= 1 && view.pageSize > 0
    requires view.items == ItemsOf(Page(rows, view.pageSize, view.page))
    ensures Shows(view, rows)
  {
    hide Itoa;
    Grows(0, view.page - 1, view.pageSize);
  }

  /** A positive number within 64 bits is taken; anything else counts as the default. */
  lemma {:induction false} ParsesPositive(v: string, default': int)
    ensures ParsePositiveInt(v, default') == match Atoi(TrimSpace(v))
                                             case Some(n) => if n >= 1 then n else default'
                                             case None => default'
  {
    hide Atoi, TrimSpace;
  }

  /** The pool is counted and then listed; `meanwhile` is what others do in between. */
  method HandleProxies(st: Store, pageText: string, sizeText: string, meanwhile: seq<Op>, countFault: bool, listFault: bool)
      returns (ok: bool, view: View)
    modifies st
    ensures st.table == old(st.table) || st.table == Run(old(st.table), meanwhile)
    ensures ok ==> view.total == |old(st.table).rows|
    ensures ok ==> view.pageSize == match Atoi(TrimSpace(sizeText))
                                    case Some(n) => if n in {10, 100} then n else 50
                                    case None => 50
    ensures ok && view.total > 0 ==>
              (view.totalPages - 1) * view.pageSize < view.total <= view.totalPages * view.pageSize
    ensures ok && view.total > 0 ==>
              view.page == match Atoi(TrimSpace(pageText))
                           case Some(n) => if n > view.totalPages then view.totalPages else if n >= 1 then n else 1
                           case None => 1
    ensures ok && view.total > 0 ==>
              && 1 <= view.page <= view.totalPages
              && view.items == ItemsOf(Page(Run(old(st.table), meanwhile).rows, view.pageSize, view.page))
              && Shows(view, Run(old(st.table), meanwhile).rows)
    ensures ok && view.total == 0 ==> view.page == 1 && view.totalPages == 0 && view.items == []
  {
    ParsesPositive(pageText, 1);
    ParsesPositive(sizeText, 50);
    hide ParsePositiveInt, ItemOf, Run, Window, Atoi, TrimSpace, Shows;
    var page := ParsePositiveInt(pageText, 1);
    var pageSize := PageSize(sizeText);
    var total;
    ok, total := st.CountProxies(countFault);
    if !ok {
      return false, View([], 0, 1, pageSize, 0);
    }
    if total == 0 {
      assert TotalPages(0, pageSize) == 0 by { CeilingDivision(0, pageSize); }
      return true, View([], 0, 1, pageSize, 0);
    }
    var totalPages := (total + pageSize - 1) / pageSize;
    EveryRequestHitsAPage(pageText, sizeText, total);
    if page > totalPages {
      page := totalPages;
    }
    if page < 1 {
      page := 1;
    }
    st.table := Run(st.table, meanwhile);
    var list;
    ok, list := st.ListProxiesPage(pageSize, (page - 1) * pageSize, listFault);
    if !ok {
      return false, View([], 0, 1, pageSize, 0);
    }
    var out := [];
    for i := 0 to |list|
      invariant out == ItemsOf(list[..i])
    {
      out := out + [ItemOf(list[i])];
    }
    assert list[..|list|] == list;
    view := View(out, total, page, pageSize, totalPages);
    CeilingDivision(total, pageSize);
    ShowsPage(view, st.table.rows);
  }

  // ----- deleting -----

  const MAX_IDS: nat := 5000

  datatype Status = OK | BadRequest | InternalError

  /** Deletes, and rotates if the current exit was among the deleted. After a success in which the
      rotation, if there was one, could list the pool, the exit is none of the listed ids. */
  method HandleProxiesDelete(st: Store, rot: Rotator, ids: seq<int>, beginFault: bool, batchFault: nat -> bool,
                             commitFault: bool, hold: int, now: int, listFault: bool)
      returns (status: Status, deleted: int)
    requires rot.st == st && Valid(st.table)
    modifies st, rot
    ensures status == BadRequest <==> |ids| == 0 || |ids| > 5000
    ensures status != OK ==> st.table == old(st.table) && rot.idx == old(rot.idx) && rot.snap == old(rot.snap)
    ensures status == OK ==>
              && st.table == Apply(old(st.table), DeleteMany(ids))
              && (forall r :: r in st.table.rows <==> r in old(st.table).rows && r.id !in ids)
              && deleted == |old(st.table).rows| - |st.table.rows|
    ensures status == OK && (old(rot.snap).exit.None? || old(rot.snap).exit.value.id !in SetOf(ids) || listFault) ==>
              rot.idx == old(rot.idx) && rot.snap == old(rot.snap)
    ensures status == OK && old(rot.snap).exit.Some? && old(rot.snap).exit.value.id in SetOf(ids) && !listFault ==>
              && rot.snap == Publish(st.table.rows, old(rot.idx), hold, now)
              && rot.idx == Next(old(rot.idx), |st.table.rows|)
    ensures status == OK && !listFault && rot.snap.exit.Some? ==> rot.snap.exit.value.id !in SetOf(ids)
  {
    if |ids| == 0 {
      return BadRequest, 0;
    }
    if |ids| > MAX_IDS {
      return BadRequest, 0;
    }
    var ok;
    ghost var batches;
    ghost var before := st.table;
    deleted, ok, batches := st.DeleteProxiesByIDs(ids, beginFault, batchFault, commitFault);
    if !ok {
      return InternalError, 0;
    }
    status := OK;
    DeletesExactly(before, ids);
    var snap := rot.snap;
    if snap.exit.Some? {
      var needRotate := Listed(ids, snap.exit.value.id);
      if needRotate {
        var _ := rot.Advance(hold, now, listFault);
        PublishesUnlisted(before, ids, old(rot.idx), hold, now);
      }
    }
  }

  /** Whether the id is among those of the request. */
  method Listed(ids: seq<int>, id: int) returns (found: bool)
    ensures found <==> id in SetOf(ids)
  {
    for k := 0 to |ids|
      invariant forall j :: 0 <= j < k ==> ids[j] != id
    {
      if ids[k] == id {
        return true;
      }
    }
    return false;
  }

  lemma {:induction false} PublishesUnlisted(t: Table, ids: seq<int>, idx: nat, hold: int, now: int)
    requires Valid(t)
    ensures var exit := Publish(Apply(t, DeleteMany(ids)).rows, idx, hold, now).exit;
            exit.Some? ==> exit.value.id !in SetOf(ids)
  {
    var u := Apply(t, DeleteMany(ids));
    ApplyKeepsValid(t, DeleteMany(ids));
    WithoutIsExact(t.rows, Positive(ids));
    if u.rows != [] {
      assert u.rows[Start(idx, |u.rows|)] in u.rows;
    }
  }
}
