/** Advance calls interleaved with each other and with every statement on the pool. A call takes
    the rotator's lock, lists the pool, and publishes; anyone may change the table in between. */
module ExitRuns {
  import opened Text
  import opened ProxyTable
  import opened Rotation

  /** The rotator's mutex, with what the holder has listed so far. */
  datatype Lock = Free | Held(who: nat) | Listed(who: nat, list: seq<Row>)

  /** `published` records the exit of every publication, in order. */
  datatype Sys = Sys(table: Table, lock: Lock, idx: nat, snap: ExitSnapshot, published: seq<Option<Row>>)

  datatype Event =
    | Statement(op: Op)
    | Acquire(who: nat)
    | ListOk
    | ListFailed
    | Publication(hold: int, now: int)

  /** An event that is not enabled, such as acquiring a held mutex, waits: nothing happens. */
  function Happen(s: Sys, e: Event): Sys {
    match e
    case Statement(op) => s.(table := Apply(s.table, op))
    case Acquire(who) => if s.lock.Free? then s.(lock := Held(who)) else s
    case ListOk => if s.lock.Held? then s.(lock := Listed(s.lock.who, s.table.rows)) else s
    case ListFailed => if s.lock.Held? then s.(lock := Free) else s
    case Publication(hold, now) =>
      if !s.lock.Listed? then s
      else
        var list := s.lock.list;
        var snap := Publish(list, s.idx, hold, now);
        Sys(s.table, Free, Next(s.idx, |list|), snap, s.published + [snap.exit])
  }

  function Play(s: Sys, es: seq<Event>): Sys
    decreases es
  {
    if es == [] then s else Play(Happen(s, es[0]), es[1..])
  }

  /** What is published during a run. */
  function Since(s: Sys, es: seq<Event>): seq<Option<Row>>
    requires |s.published| <= |Play(s, es).published|
  {
    Play(s, es).published[|s.published|..]
  }

  ghost predicate Names(exit: Option<Row>, gone: set<int>) {
    exit.Some? && exit.value.id in gone
  }

  ghost predicate AllRetired(t: Table, gone: set<int>) {
    forall id :: id in gone ==> Retired(t, id)
  }

  /** The exit that the lock holder, if it has listed, is about to publish. */
  function Pending(s: Sys): Option<Row> {
    if s.lock.Listed? then Publish(s.lock.list, s.idx, 0, 0).exit else None
  }

  /** Nobody is about to publish one of these ids. */
  ghost predicate Clear(s: Sys, gone: set<int>) {
    Valid(s.table) && AllRetired(s.table, gone) && !Names(Pending(s), gone)
  }

  lemma {:induction false} StatementKeepsRetired(t: Table, op: Op, gone: set<int>)
    requires Valid(t) && AllRetired(t, gone)
    ensures Valid(Apply(t, op)) && AllRetired(Apply(t, op), gone)
  {
    forall id | id in gone ensures Retired(Apply(t, op), id) {
      RetiredForever(t, [op], id);
      assert Run(t, [op]) == Run(Apply(t, op), []);
    }
    ApplyKeepsValid(t, op);
  }

  lemma {:induction false} HappenKeepsClear(s: Sys, e: Event, gone: set<int>)
    requires Clear(s, gone)
    ensures Clear(Happen(s, e), gone)
    ensures s.published <= Happen(s, e).published
    ensures forall k :: |s.published| <= k < |Happen(s, e).published| ==> !Names(Happen(s, e).published[k], gone)
    ensures !Names(s.snap.exit, gone) ==> !Names(Happen(s, e).snap.exit, gone)
  {
    match e
    case Statement(op) => StatementKeepsRetired(s.table, op, gone);
    case ListOk =>
      var p := Pending(Happen(s, e));
      if s.lock.Held? && p.Some? {
        assert p.value in s.table.rows;
        assert p.value.id in Ids(s.table.rows);
      }
    case _ =>
  }

  /** A call that lists after the delete never publishes a deleted id, whatever else goes on; if
      the exit was not a deleted one it never becomes one. */
  lemma {:induction false} DeletedNeverPublished(s: Sys, es: seq<Event>, gone: set<int>)
    requires Clear(s, gone)
    ensures s.published <= Play(s, es).published
    ensures forall k :: 0 <= k < |Since(s, es)| ==> !Names(Since(s, es)[k], gone)
    ensures !Names(s.snap.exit, gone) ==> !Names(Play(s, es).snap.exit, gone)
    ensures Clear(Play(s, es), gone)
    decreases es
  {
    if es != [] {
      var s' := Happen(s, es[0]);
      HappenKeepsClear(s, es[0], gone);
      DeletedNeverPublished(s', es[1..], gone);
      var end := Play(s, es);
      forall k | |s.published| <= k < |end.published| ensures !Names(end.published[k], gone) {
        if k < |s'.published| {
          assert end.published[k] == s'.published[k];
        } else {
          assert end.published[k] == Since(s', es[1..])[k - |s'.published|];
        }
      }
    }
  }

  /** After the ids are retired, exactly one situation lets one of them be published again: a call
      that had already listed the pool before the delete still holds the lock and is about to
      publish it. */
  lemma {:induction false} DeletedPublishedExactlyIfPending(s: Sys, gone: set<int>)
    requires Valid(s.table) && AllRetired(s.table, gone)
    ensures Names(Pending(s), gone) <==>
      exists es :: s.published <= Play(s, es).published
                   && exists k :: 0 <= k < |Since(s, es)| && Names(Since(s, es)[k], gone)
  {
    if Names(Pending(s), gone) {
      var es := [Publication(0, 0)];
      assert Play(s, es) == Play(Happen(s, es[0]), es[1..]) == Happen(s, es[0]);
      assert Since(s, es)[0] == Pending(s);
    } else {
      forall es
        ensures s.published <= Play(s, es).published
        ensures forall k :: 0 <= k < |Since(s, es)| ==> !Names(Since(s, es)[k], gone)
      {
        DeletedNeverPublished(s, es, gone);
      }
    }
  }

  /** And even then only the next publication can be such an exit: the call that listed too early
      is the last to do so. */
  lemma {:induction false} DeletedPublishedAtMostOnce(s: Sys, es: seq<Event>, gone: set<int>)
    requires Valid(s.table) && AllRetired(s.table, gone)
    ensures s.published <= Play(s, es).published
    ensures forall k :: 1 <= k < |Since(s, es)| ==> !Names(Since(s, es)[k], gone)
    decreases es
  {
    if es != [] {
      var s' := Happen(s, es[0]);
      if es[0].Publication? && s.lock.Listed? {
        DeletedNeverPublished(s', es[1..], gone);
        assert forall k :: 1 <= k < |Since(s, es)| ==> Since(s, es)[k] == Since(s', es[1..])[k - 1];
      } else {
        if es[0].Statement? {
          StatementKeepsRetired(s.table, es[0].op, gone);
        }
        DeletedPublishedAtMostOnce(s', es[1..], gone);
        assert s'.published == s.published && Since(s, es) == Since(s', es[1..]);
      }
    }
  }

  /** It does happen: a call lists, the admin deletes that row, and the call publishes it. */
  lemma {:induction false} DeletedExitCanReappear(row: Row)
    requires row.id == 1 && Complete(row.key) && row.latencyMs >= 0
    ensures var s := Sys(Table([row], 1), Free, 0, ExitSnapshot(None, 0, 0), []);
            var end := Play(s, [Acquire(7), ListOk, Statement(DeleteMany([1])), Publication(SECOND, 0)]);
            Valid(s.table) && end.table.rows == [] && end.snap.exit == Some(row)
  {
    var s := Sys(Table([row], 1), Free, 0, ExitSnapshot(None, 0, 0), []);
    var es := [Acquire(7), ListOk, Statement(DeleteMany([1])), Publication(SECOND, 0)];
    assert [1][0] == 1 && 1 in SetOf([1]);
    var s1 := Happen(s, es[0]);
    var s2 := Happen(s1, es[1]);
    var s3 := Happen(s2, es[2]);
    assert Without([row], Positive([1])) == Without([row][1..], Positive([1]));
    assert Play(s3, es[3..]) == Play(Happen(s3, es[3]), es[3..][1..]);
    assert es[1..][0] == es[1] && es[1..][1..] == es[2..] && es[2..][1..] == es[3..];
    assert Play(s, es) == Play(s1, es[1..]) == Play(s2, es[2..]) == Play(s3, es[3..]);
  }

  // ----- the admin handler -----

  /** Ids that were issued when the delete committed; listing an id not yet issued deletes nothing. */
  ghost function Deleted(t: Table, ids: seq<int>): set<int> {
    set id | id in SetOf(ids) && 0 < id <= t.lastId
  }

  lemma {:induction false} DeleteRetires(t: Table, ids: seq<int>)
    requires Valid(t)
    ensures var u := Apply(t, DeleteMany(ids)); Valid(u) && AllRetired(u, Deleted(t, ids))
  {
    var u := Apply(t, DeleteMany(ids));
    ApplyKeepsValid(t, DeleteMany(ids));
    WithoutIsExact(t.rows, Positive(ids));
    assert forall i :: 0 <= i < |u.rows| ==> u.rows[i] in u.rows;
  }

  /** The handler deletes, sees the exit among the deleted ids and rotates. Once its own call has
      listed successfully and published, no exit in use or published later has a deleted id,
      however its steps interleave with other calls and statements. */
  lemma {:induction false} DeletedExitDoesNotReturn(s: Sys, ids: seq<int>, me: nat, before: seq<Event>,
                                                    during: seq<Event>, hold: int, now: int, after: seq<Event>)
    requires Valid(s.table)
    requires var s1 := Play(Happen(s, Statement(DeleteMany(ids))), before);
             s1.lock.Free? && Play(Happen(s1, Acquire(me)), during).lock.Listed?
    ensures var s1 := Play(Happen(s, Statement(DeleteMany(ids))), before);
            var s2 := Play(Happen(s1, Acquire(me)), during);
            var s3 := Happen(s2, Publication(hold, now));
            && !Names(s3.snap.exit, Deleted(s.table, ids))
            && !Names(Play(s3, after).snap.exit, Deleted(s.table, ids))
            && s3.published <= Play(s3, after).published
            && (forall k :: 0 <= k < |Since(s3, after)| ==> !Names(Since(s3, after)[k], Deleted(s.table, ids)))
  {
    var gone := Deleted(s.table, ids);
    var s0 := Happen(s, Statement(DeleteMany(ids)));
    var s1 := Play(s0, before);
    DeleteRetires(s.table, ids);
    PlayKeepsRetired(s0, before, gone);
    DeletedNeverPublished(Happen(s1, Acquire(me)), during, gone);
    var s2 := Play(Happen(s1, Acquire(me)), during);
    HappenKeepsClear(s2, Publication(hold, now), gone);
    DeletedNeverPublished(Happen(s2, Publication(hold, now)), after, gone);
  }

  lemma {:induction false} PlayKeepsRetired(s: Sys, es: seq<Event>, gone: set<int>)
    requires Valid(s.table) && AllRetired(s.table, gone)
    ensures Valid(Play(s, es).table) && AllRetired(Play(s, es).table, gone)
    decreases es
  {
    if es != [] {
      if es[0].Statement? {
        StatementKeepsRetired(s.table, es[0].op, gone);
      }
      PlayKeepsRetired(Happen(s, es[0]), es[1..], gone);
    }
  }

  // ----- fairness in every run -----

  /** The lists behind the publications of a run, in order. */
  function Lists(s: Sys, es: seq<Event>): seq<seq<Row>>
    decreases es
  {
    if es == [] then []
    else
      (if es[0].Publication? && s.lock.Listed? then [s.lock.list] else [])
      + Lists(Happen(s, es[0]), es[1..])
  }

  ghost function IdLists(lists: seq<seq<Row>>): (r: seq<seq<int>>)
    ensures |r| == |lists| && forall k :: 0 <= k < |lists| ==> r[k] == IdList(lists[k])
  {
    seq(|lists|, k requires 0 <= k < |lists| => IdList(lists[k]))
  }

  function IdOf(exit: Option<Row>): Option<int> {
    match exit
    case None => None
    case Some(r) => Some(r.id)
  }

  lemma {:induction false} OnlyGrows(s: Sys, es: seq<Event>)
    ensures s.published <= Play(s, es).published
    decreases es
  {
    if es != [] {
      OnlyGrows(Happen(s, es[0]), es[1..]);
    }
  }

  /** A step's own contribution, and the rest of the run. */
  lemma {:induction false} RunUnfolds(s: Sys, es: seq<Event>)
    requires es != []
    ensures var s', rest := Happen(s, es[0]), es[1..];
            && s.published <= Play(s, es).published && s'.published <= Play(s', rest).published
            && (if es[0].Publication? && s.lock.Listed? then
                  && Lists(s, es) == [s.lock.list] + Lists(s', rest)
                  && Since(s, es) == [Publish(s.lock.list, s.idx, 0, 0).exit] + Since(s', rest)
                  && s'.idx == Next(s.idx, |s.lock.list|)
                else
                  Lists(s, es) == Lists(s', rest) && Since(s, es) == Since(s', rest) && s'.idx == s.idx)
  {
    OnlyGrows(s, es);
    OnlyGrows(Happen(s, es[0]), es[1..]);
  }

  /** In every interleaving the k-th publication is the round robin's k-th pick from the lists seen. */
  lemma {:induction false} PublishedArePicked(s: Sys, es: seq<Event>, k: nat)
    ensures s.published <= Play(s, es).published && |Since(s, es)| == |Lists(s, es)|
    ensures k < |Lists(s, es)| ==> IdOf(Since(s, es)[k]) == Picked(IdLists(Lists(s, es)), s.idx, k)
    decreases es
  {
    if es != [] {
      hide Happen, Publish, Picked;
      var s', rest := Happen(s, es[0]), es[1..];
      RunUnfolds(s, es);
      if es[0].Publication? && s.lock.Listed? {
        PublishedArePicked(s', rest, if k > 0 then k - 1 else 0);
        if k < 1 + |Lists(s', rest)| {
          PickedNext(s.lock.list, Lists(s', rest), s.idx, k);
        }
      } else {
        PublishedArePicked(s', rest, k);
      }
    }
  }

  lemma {:induction false} PickedNext(list: seq<Row>, rest: seq<seq<Row>>, idx: nat, k: nat)
    requires k < 1 + |rest|
    ensures Picked(IdLists([list] + rest), idx, k)
         == if k > 0 then Picked(IdLists(rest), Next(idx, |list|), k - 1)
            else IdOf(Publish(list, idx, 0, 0).exit)
  {
    var sizes := Sizes(IdLists([list] + rest));
    assert sizes[0] == |list| && sizes[1..] == Sizes(IdLists(rest));
  }

  /** The table that was listed, if the lock holder has listed one. */
  ghost predicate Origin(s: Sys, t: Table) {
    s.lock.Listed? ==> Valid(t) && t.rows == s.lock.list && Follows(t, s.table)
  }

  /** After one event: the table that was listed, which follows any table that the state followed. */
  lemma {:induction false} NextOrigin(s: Sys, e: Event, t: Table, u: Table) returns (t': Table)
    requires Valid(s.table) && Origin(s, t) && Follows(u, s.table) && (s.lock.Listed? ==> Follows(u, t))
    ensures var s' := Happen(s, e);
            && Valid(s'.table) && Origin(s', t') && Follows(u, s'.table) && (s'.lock.Listed? ==> Follows(u, t'))
  {
    t' := t;
    match e
    case Statement(op) =>
      ApplyKeepsValid(s.table, op);
      FollowsTrans(u, s.table, Apply(s.table, op));
      if s.lock.Listed? {
        FollowsTrans(t, s.table, Apply(s.table, op));
      }
    case ListOk =>
      if s.lock.Held? {
        t' := s.table;
        FollowsRefl(s.table);
      }
    case _ =>
  }

  lemma {:induction false} FirstListFollows(s: Sys, es: seq<Event>, t: Table, u: Table)
    requires Valid(s.table) && Origin(s, t) && Valid(u) && Follows(u, s.table) && (s.lock.Listed? ==> Follows(u, t))
    ensures Lists(s, es) != [] ==> Churn(IdList(u.rows), IdList(Lists(s, es)[0]))
    decreases es
  {
    if es != [] {
      if es[0].Publication? && s.lock.Listed? {
        FollowsChurns(u, t);
      } else {
        var t' := NextOrigin(s, es[0], t, u);
        FirstListFollows(Happen(s, es[0]), es[1..], t', u);
      }
    }
  }

  /** Whatever statements run in between, the lists behind a run's publications only churn. */
  lemma {:induction false} ListsChurn(s: Sys, es: seq<Event>, t: Table, k: nat)
    requires Valid(s.table) && Origin(s, t) && k < |Lists(s, es)|
    ensures Increasing(IdList(Lists(s, es)[k]))
    ensures k + 1 < |Lists(s, es)| ==> Churn(IdList(Lists(s, es)[k]), IdList(Lists(s, es)[k + 1]))
    decreases es
  {
    var s', rest := Happen(s, es[0]), es[1..];
    if es[0].Publication? && s.lock.Listed? {
      assert Lists(s, es) == [s.lock.list] + Lists(s', rest);
      if k == 0 {
        FollowsRefl(t);
        FollowsChurns(t, t);
        FirstListFollows(s', rest, t, t);
      } else {
        ListsChurn(s', rest, t, k - 1);
      }
    } else {
      assert Lists(s, es) == Lists(s', rest);
      FollowsRefl(s.table);
      var u := if s.lock.Listed? then t else s.table;
      FollowsRefl(u);
      var t' := NextOrigin(s, es[0], t, u);
      ListsChurn(s', rest, t', k);
    }
  }

  lemma {:induction false} AllListsChurn(s: Sys, es: seq<Event>)
    requires Valid(s.table) && !s.lock.Listed?
    ensures var lists := IdLists(Lists(s, es));
            && (forall j :: 0 <= j < |lists| ==> Increasing(lists[j]))
            && (forall j :: 0 <= j < |lists| - 1 ==> ChurnsAt(lists, j))
  {
    hide Happen, Lists, Increasing, Churn;
    var lists := IdLists(Lists(s, es));
    forall j | 0 <= j < |lists|
      ensures Increasing(lists[j])
      ensures j < |lists| - 1 ==> ChurnsAt(lists, j)
    {
      ListsChurn(s, es, s.table, j);
    }
  }

  /** Bounded fairness in every run: calls interleave with each other and with fetches, retests and
      deletes; a proxy that every publishing call listed is published within (d + 1) * (n - 1) + 1 of
      them, where no list is longer than n and d smaller ids were deleted meanwhile. */
  lemma {:induction false} RunFairness(s: Sys, es: seq<Event>, x: int, n: nat) returns (k: nat)
    requires Valid(s.table) && !s.lock.Listed? && Lists(s, es) != [] && n >= 1
    requires forall j :: 0 <= j < |Lists(s, es)| ==> x in IdList(Lists(s, es)[j]) && |Lists(s, es)[j]| <= n
    requires |Lists(s, es)| > Times(|Lost(Lists(s, es), x)| + 1, n - 1)
    ensures s.published <= Play(s, es).published && k < |Since(s, es)| && IdOf(Since(s, es)[k]) == Some(x)
  {
    hide Happen, Lists, Play, Picked, Increasing, ChurnsAt, Times, Smaller;
    AllListsChurn(s, es);
    k := BoundedFairness(IdLists(Lists(s, es)), s.idx, x, n);
    PublishedArePicked(s, es, k);
  }

  /** The ids smaller than `x` that the first list had and the last has not. */
  ghost function Lost(lists: seq<seq<Row>>, x: int): set<int>
    requires lists != []
  {
    Smaller(IdList(lists[0]), x) - Smaller(IdList(lists[|lists| - 1]), x)
  }
}
