/** The exit rotator: round robin over a list that changes between calls. */
module Rotation {
  import opened Text
  import opened ProxyTable
  import opened ProxyStore

  const SECOND: int := 1_000_000_000
  const MINUTE: int := 60 * SECOND

  datatype ExitSnapshot = ExitSnapshot(exit: Option<Row>, switchedAt: int, expiresAt: int)

  /** An index left over from a longer list starts again at 0. */
  function Start(idx: nat, n: nat): nat {
    if idx >= n then 0 else idx
  }

  function Next(idx: nat, n: nat): nat {
    if Start(idx, n) + 1 >= n then 0 else Start(idx, n) + 1
  }

  function HoldOrMinute(hold: int): int {
    if hold <= 0 then MINUTE else hold
  }

  function Publish(list: seq<Row>, idx: nat, hold: int, now: int): ExitSnapshot {
    ExitSnapshot(if list == [] then None else Some(list[Start(idx, |list|)]),
                 now, now + HoldOrMinute(hold))
  }

  class Rotator {
    const st: Store
    var idx: nat
    var snap: ExitSnapshot

    constructor (st: Store)
      ensures this.st == st && idx == 0 && snap.exit.None?
    {
      this.st := st;
      idx := 0;
      snap := ExitSnapshot(None, 0, 0);
    }

    /** Lists, then publishes the row at the index and moves the index on. A failed listing
        changes nothing. */
    method Advance(hold: int, now: int, fault: bool) returns (ok: bool)
      modifies this
      ensures ok <==> !fault
      ensures !ok ==> idx == old(idx) && snap == old(snap)
      ensures ok ==> snap == Publish(st.table.rows, old(idx), hold, now)
      ensures ok ==> idx == Next(old(idx), |st.table.rows|)
      ensures ok ==>
                var n := |st.table.rows|;
                var at := if old(idx) < n then old(idx) else 0;
                && snap.exit == (if n == 0 then None else Some(st.table.rows[at]))
                && idx == (if at + 1 < n then at + 1 else 0)
                && snap.switchedAt == now && snap.expiresAt == now + if hold > 0 then hold else 60_000_000_000
    {
      var h := if hold <= 0 then MINUTE else hold;
      var list;
      ok, list := st.ListProxies(fault);
      if !ok { return; }
      if |list| == 0 {
        idx := 0;
        snap := ExitSnapshot(None, now, now + h);
        return;
      }
      if idx >= |list| {
        idx := 0;
      }
      var p := list[idx];
      idx := idx + 1;
      if idx >= |list| {
        idx := 0;
      }
      snap := ExitSnapshot(Some(p), now, now + h);
    }
  }

  // ----- fairness, on the lists of ids that successive calls see -----

  ghost predicate Increasing(s: seq<int>) {
    forall i, j :: 0 <= i < j < |s| ==> s[i] < s[j]
  }

  /** `b` may have lost ids of `a`; what it gained is newer than all of `a`. */
  ghost predicate Churn(a: seq<int>, b: seq<int>) {
    forall j :: 0 <= j < |b| ==> b[j] in a || forall i :: 0 <= i < |a| ==> a[i] < b[j]
  }

  /** The index before the k-th call, when the calls see lists of the given sizes. */
  function IndexAt(sizes: seq<nat>, idx: nat, k: nat): nat
    requires k <= |sizes|
  {
    if k == 0 then idx else IndexAt(sizes[1..], Next(idx, sizes[0]), k - 1)
  }

  function Sizes(lists: seq<seq<int>>): (r: seq<nat>)
    ensures |r| == |lists| && forall k :: 0 <= k < |lists| ==> r[k] == |lists[k]|
  {
    seq(|lists|, k requires 0 <= k < |lists| => |lists[k]|)
  }

  /** The id the k-th call publishes, the j-th call seeing `lists[j]`. */
  function Picked(lists: seq<seq<int>>, idx: nat, k: nat): Option<int>
    requires k < |lists|
  {
    if lists[k] == [] then None
    else Some(lists[k][Start(IndexAt(Sizes(lists), idx, k), |lists[k]|)])
  }

  ghost function Smaller(s: seq<int>, x: int): set<int> {
    set i | 0 <= i < |s| && s[i] < x :: s[i]
  }

  /** Calls still needed before place `p` is served if nothing before it is deleted: the index
      climbs to `p`, or first past the end of the longest list and then to `p`. */
  function Distance(idx: nat, p: nat, n: nat): nat {
    if idx <= p then p - idx else (if idx > n then 0 else n - idx) + p
  }

  function Times(d: nat, m: nat): nat {
    if d == 0 then 0 else m + Times(d - 1, m)
  }

  lemma {:induction false} TimesIsProduct(d: nat, m: nat)
    ensures Times(d, m) == d * m
  {
    if d > 0 {
      TimesIsProduct(d - 1, m);
      assert d * m == (d - 1) * m + m;
    }
  }

  lemma {:induction false} TimesAdds(a: nat, b: nat, m: nat)
    ensures Times(a + b, m) == Times(a, m) + Times(b, m)
  {
    if a > 0 {
      TimesAdds(a - 1, b, m);
    }
  }

  /** A call that serves something else uses up one of the calls that may be needed. */
  lemma {:induction false} CloserUnlessDeleted(idx: nat, m: nat, p: nat, lost: nat, n: nat)
    requires lost <= p < m <= n && Start(idx, m) != p
    ensures Distance(Next(idx, m), p - lost, n) < Distance(idx, p, n) + Times(lost, n - 1)
  {
  }

  /** The index meets the place it is looking for in time, however the list shrinks before that
      place or grows after it. */
  lemma {:induction false} MeetsPlace(sizes: seq<nat>, places: seq<nat>, idx: nat, n: nat) returns (k: nat)
    requires |sizes| == |places| > 0
    requires forall j :: 0 <= j < |sizes| ==> places[j] < sizes[j] <= n
    requires forall j :: 0 < j < |sizes| ==> places[j] <= places[j - 1]
    requires places[|places| - 1] <= places[0]
    requires |sizes| > Distance(idx, places[0], n) + Times(places[0] - places[|places| - 1], n - 1)
    ensures k < |sizes| && Start(IndexAt(sizes, idx, k), sizes[k]) == places[k]
    decreases |sizes|
  {
    if Start(idx, sizes[0]) == places[0] {
      return 0;
    }
    var lost := places[0] - places[1];
    Descends(places, 1);
    CloserUnlessDeleted(idx, sizes[0], places[0], lost, n);
    TimesAdds(lost, places[1] - places[|places| - 1], n - 1);
    k := MeetsPlace(sizes[1..], places[1..], Next(idx, sizes[0]), n);
    k := k + 1;
  }

  lemma {:induction false} Descends(places: seq<nat>, i: nat)
    requires forall j :: 0 < j < |places| ==> places[j] <= places[j - 1]
    requires i < |places|
    ensures places[|places| - 1] <= places[i]
    decreases |places| - i
  {
    if i < |places| - 1 {
      Descends(places, i + 1);
    }
  }

  ghost predicate ChurnsAt(lists: seq<seq<int>>, k: nat)
    requires k < |lists| - 1
  {
    Churn(lists[k], lists[k + 1])
  }

  /** Bounded fairness while the pool churns: a proxy that stays listed is served within
      (d + 1) * (n - 1) + 1 calls, where n bounds the lists and d counts the smaller ids deleted
      meanwhile; hence within n calls if rows are only inserted. */
  lemma {:induction false} BoundedFairness(lists: seq<seq<int>>, idx: nat, x: int, n: nat) returns (k: nat)
    requires lists != [] && n >= 1
    requires forall j :: 0 <= j < |lists| ==> Increasing(lists[j]) && x in lists[j] && |lists[j]| <= n
    requires forall j :: 0 <= j < |lists| - 1 ==> ChurnsAt(lists, j)
    requires |lists| > Times(|Smaller(lists[0], x) - Smaller(lists[|lists| - 1], x)| + 1, n - 1)
    ensures k < |lists| && Picked(lists, idx, k) == Some(x)
  {
    var last := |lists| - 1;
    var places := Places(lists, x);
    SmallerInAll(lists, x, last);
    Difference(Smaller(lists[0], x), Smaller(lists[last], x));
    k := MeetsPlace(Sizes(lists), places, idx, n);
  }

  /** Where `x` stands in each list: it only ever moves forward. */
  lemma {:induction false} Places(lists: seq<seq<int>>, x: int) returns (places: seq<nat>)
    requires forall j :: 0 <= j < |lists| ==> Increasing(lists[j]) && x in lists[j]
    requires forall j :: 0 <= j < |lists| - 1 ==> ChurnsAt(lists, j)
    ensures |places| == |lists|
    ensures forall j :: 0 <= j < |lists| ==> places[j] == Rank(lists[j], x)
    ensures forall j :: 0 <= j < |lists| ==> places[j] < |lists[j]| && lists[j][places[j]] == x
    ensures forall j :: 0 < j < |lists| ==> places[j] <= places[j - 1]
  {
    places := seq(|lists|, j requires 0 <= j < |lists| => Rank(lists[j], x));
    forall j | 0 <= j < |lists|
      ensures places[j] < |lists[j]| && lists[j][places[j]] == x
    {
      RankIsPlace(lists[j], x);
    }
    forall j | 0 < j < |lists| ensures places[j] <= places[j - 1] {
      assert ChurnsAt(lists, j - 1);
      RankDrops(lists[j - 1], lists[j], x);
    }
  }

  lemma {:induction false} RankIsPlace(s: seq<int>, x: int)
    requires Increasing(s) && x in s
    ensures Rank(s, x) < |s| && s[Rank(s, x)] == x
  {
    var p :| 0 <= p < |s| && s[p] == x;
    PlaceIsRank(s, p);
  }

  /** The place of `x` in a list that has it. */
  ghost function Rank(s: seq<int>, x: int): nat {
    |Smaller(s, x)|
  }

  lemma {:induction false} Difference(a: set<int>, b: set<int>)
    requires b <= a
    ensures |a - b| == |a| - |b|
  {
  }

  /** Inserting never moves `x`; deleting smaller ids moves it forward by as many places. */
  lemma {:induction false} RankDrops(a: seq<int>, b: seq<int>, x: int)
    requires Churn(a, b) && x in a
    ensures Smaller(b, x) <= Smaller(a, x) && Rank(b, x) <= Rank(a, x)
  {
    forall j | 0 <= j < |b| && b[j] < x ensures b[j] in Smaller(a, x) {
      assert b[j] in a;
    }
    Difference(Smaller(a, x), Smaller(b, x));
  }

  lemma {:induction false} SmallerInAll(lists: seq<seq<int>>, x: int, k: nat)
    requires k < |lists| && forall j :: 0 <= j < |lists| ==> x in lists[j]
    requires forall j :: 0 <= j < |lists| - 1 ==> ChurnsAt(lists, j)
    ensures Smaller(lists[k], x) <= Smaller(lists[0], x)
  {
    if k > 0 {
      SmallerInAll(lists, x, k - 1);
      assert ChurnsAt(lists, k - 1);
      RankDrops(lists[k - 1], lists[k], x);
    }
  }

  lemma {:induction false} PlaceIsRank(s: seq<int>, p: nat)
    requires Increasing(s) && p < |s|
    ensures |Smaller(s, s[p])| == p
  {
    if p == 0 {
      assert Smaller(s, s[0]) == {};
    } else {
      PlaceIsRank(s, p - 1);
      assert Smaller(s, s[p]) == Smaller(s, s[p - 1]) + {s[p - 1]};
    }
  }

  /** On a fixed pool the k-th call serves the k-th row from the starting point, cyclically. */
  lemma {:induction false} FixedPoolRoundRobin(list: seq<int>, idx: nat, calls: nat, k: nat)
    requires list != [] && k < calls
    ensures Picked(seq(calls, _ => list), idx, k) == Some(list[(Start(idx, |list|) + k) % |list|])
  {
    assert Sizes(seq(calls, _ => list)) == seq(calls, _ => |list|);
    IndexTurns(|list|, idx, calls, k);
  }

  lemma {:induction false} IndexTurns(n: nat, idx: nat, calls: nat, k: nat)
    requires n > 0 && k < calls
    ensures Start(IndexAt(seq(calls, _ => n), idx, k), n) == (Start(idx, n) + k) % n
    decreases k
  {
    var s := Start(idx, n);
    if k == 0 {
      SmallMod(s, n);
    } else {
      assert seq(calls, _ => n)[1..] == seq(calls - 1, _ => n);
      IndexTurns(n, Next(idx, n), calls - 1, k - 1);
      if s + 1 == n {
        AddPeriod(k - 1, n);
      }
    }
  }

  lemma {:induction false} AddPeriod(k: nat, n: nat)
    requires n > 0
    ensures (k + n) % n == k % n
  {
    var q := (k + n) / n - k / n;
    assert q * n == n + k % n - (k + n) % n;
    Multiples(q - 1, n);
  }

  lemma {:induction false} Multiples(q: int, n: int)
    requires n > 0
    ensures q >= 1 ==> q * n >= n
    ensures q <= -1 ==> q * n <= -n
  {
  }

  lemma {:induction false} SmallMod(k: nat, n: nat)
    requires k < n
    ensures k % n == k
  {
  }

  /** So one round of as many calls as rows serves each row exactly once. */
  lemma {:induction false} OneRoundServesEachOnce(list: seq<int>, idx: nat)
    requires list != []
    ensures var n := |list|;
            multiset(seq(n, k requires 0 <= k < n => Picked(seq(n, _ => list), idx, k)))
              == multiset(seq(n, k requires 0 <= k < n => Some(list[k])))
  {
    var n, s := |list|, Start(idx, |list|);
    var all := seq(n, k requires 0 <= k < n => Some(list[k]));
    var served := seq(n, k requires 0 <= k < n => Picked(seq(n, _ => list), idx, k));
    var turned := all[s..] + all[..s];
    forall k | 0 <= k < n ensures served[k] == turned[k] {
      FixedPoolRoundRobin(list, idx, n, k);
      if s + k >= n {
        AddPeriod(s + k - n, n);
        SmallMod(s + k - n, n);
      } else {
        SmallMod(s + k, n);
      }
    }
    assert served == turned;
    assert all == all[..s] + all[s..];
  }

  // ----- the same on the table -----

  ghost function IdList(rows: seq<Row>): seq<int> {
    seq(|rows|, i requires 0 <= i < |rows| => rows[i].id)
  }

  /** Between two listings ids only vanish or are added at the end. */
  lemma {:induction false} FollowsChurns(t: Table, u: Table)
    requires Valid(t) && Follows(t, u)
    ensures Increasing(IdList(t.rows))
    ensures Churn(IdList(t.rows), IdList(u.rows))
  {
    var a := IdList(t.rows);
    forall j | 0 <= j < |u.rows|
      ensures u.rows[j].id in a || forall i :: 0 <= i < |a| ==> a[i] < u.rows[j].id
    {
      if u.rows[j].id <= t.lastId {
        var i :| 0 <= i < |t.rows| && SameIdentity(t.rows[i], u.rows[j]);
        assert a[i] == u.rows[j].id;
      }
    }
  }
}
