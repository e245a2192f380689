/** The loop that keeps an exit published: a ticker, the rotator, and the last time the pool was
    looked at for want of an exit. Times are in nanoseconds. */
module RotationClock {
  import opened Text
  import opened ProxyTable
  import opened ProxyStore
  import opened Rotation

  const RECHECK: int := 5 * SECOND

  /** What one tick meets: the time the loop reads; then the pool as others have left it, whether
      listing it fails, and the time and hold used if the loop advances the rotator. */
  datatype Tick = Tick(now: int, pool: Table, fault: bool, listedAt: int, hold: int)

  datatype Clock = Clock(idx: nat, snap: ExitSnapshot, lastCheck: Option<int>)

  function Advanced(c: Clock, t: Tick): Clock {
    if t.fault then c
    else Clock(Next(c.idx, |t.pool.rows|), Publish(t.pool.rows, c.idx, t.hold, t.listedAt), c.lastCheck)
  }

  /** Whether a tick at `now` finds no exit and is due to look for one. */
  predicate LooksForExit(c: Clock, now: int) {
    c.snap.exit.None? && (c.lastCheck.None? || now - c.lastCheck.value >= RECHECK)
  }

  function Ticked(c: Clock, t: Tick): Clock {
    if c.snap.exit.Some? && t.now >= c.snap.expiresAt then Advanced(c, t)
    else if LooksForExit(c, t.now) then Advanced(c.(lastCheck := Some(t.now)), t)
    else c
  }

  /** The state after the first `k` ticks. */
  function At(c: Clock, ticks: seq<Tick>, k: nat): Clock
    requires k <= |ticks|
  {
    if k == 0 then c else Ticked(At(c, ticks, k - 1), ticks[k - 1])
  }

  /** Time does not run backwards, and holds are positive. */
  ghost predicate InOrder(ticks: seq<Tick>) {
    && (forall i :: 0 <= i < |ticks| ==> ticks[i].now <= ticks[i].listedAt && ticks[i].hold > 0)
    && (forall i, j :: 0 <= i < j < |ticks| ==> ticks[i].listedAt <= ticks[j].now)
  }

  /** The snapshot before tick `k`. */
  ghost function SnapAt(c: Clock, ticks: seq<Tick>, k: nat): ExitSnapshot
    requires k <= |ticks|
  {
    At(c, ticks, k).snap
  }

  /** Tick `i` looked for an exit because there was none. */
  ghost predicate Looked(c: Clock, ticks: seq<Tick>, calls: seq<bool>, i: nat)
    requires i < |calls| <= |ticks|
  {
    calls[i] && SnapAt(c, ticks, i).exit.None?
  }

  /** Tick `j` is the last before tick `k` that did. */
  ghost predicate LastLook(c: Clock, ticks: seq<Tick>, calls: seq<bool>, j: nat, k: nat)
    requires k <= |calls| <= |ticks|
  {
    j < k && Looked(c, ticks, calls, j) && forall i :: j < i < k ==> !Looked(c, ticks, calls, i)
  }

  /** When the loop calls the rotator: at a tick that finds an exit, exactly once the exit has expired;
      at one that finds none, exactly if it is the first such look or five seconds after the last. */
  ghost predicate CallsRightly(c: Clock, ticks: seq<Tick>, calls: seq<bool>, k: nat)
    requires k < |calls| <= |ticks|
  {
    calls[k] <==>
      if SnapAt(c, ticks, k).exit.Some? then ticks[k].now >= SnapAt(c, ticks, k).expiresAt
      else forall j: nat :: LastLook(c, ticks, calls, j, k) ==> ticks[k].now - ticks[j].now >= 5_000_000_000
  }

  /** What a call leaves: a row of the pool, or none if there is none, to be held from the time it was
      listed. Without a call, or if listing fails, nothing changes. */
  ghost predicate LeavesRightly(t: Tick, call: bool, before: ExitSnapshot, after: ExitSnapshot) {
    if !call || t.fault then after == before
    else
      && (if t.pool.rows == [] then after.exit.None? else after.exit.Some? && after.exit.value in t.pool.rows)
      && after.switchedAt == t.listedAt
      && after.expiresAt == t.listedAt + if t.hold > 0 then t.hold else 60_000_000_000
  }

  ghost predicate RunsRightly(c: Clock, ticks: seq<Tick>, calls: seq<bool>)
    requires |calls| <= |ticks|
  {
    forall k :: 0 <= k < |calls| ==>
      && CallsRightly(c, ticks, calls, k)
      && LeavesRightly(ticks[k], calls[k], SnapAt(c, ticks, k), SnapAt(c, ticks, k + 1))
  }

  /** What the loop remembers: the time of its last look, at tick `last`, if it has looked at all. */
  ghost predicate Remembers(c: Clock, ticks: seq<Tick>, calls: seq<bool>, last: Option<nat>, k: nat)
    requires k <= |calls| <= |ticks|
  {
    match last
    case None => At(c, ticks, k).lastCheck.None? && forall i: nat :: i < k ==> !Looked(c, ticks, calls, i)
    case Some(j) => LastLook(c, ticks, calls, j, k) && At(c, ticks, k).lastCheck == Some(ticks[j].now)
  }

  /** The loop calls the rotator at the right ticks, and what it publishes is right. */
  lemma {:induction false} LoopRunsRightly(c: Clock, ticks: seq<Tick>, n: nat) returns (calls: seq<bool>, last: Option<nat>)
    requires c.lastCheck.None? && n <= |ticks|
    ensures |calls| == n && RunsRightly(c, ticks, calls) && Remembers(c, ticks, calls, last, n)
  {
    if n == 0 {
      calls, last := [], None;
    } else {
      var before, last' := LoopRunsRightly(c, ticks, n - 1);
      calls, last := OneMoreTick(c, ticks, before, last', n - 1);
    }
  }

  lemma {:induction false} OneMoreTick(c: Clock, ticks: seq<Tick>, before: seq<bool>, last: Option<nat>, k: nat)
      returns (calls: seq<bool>, last': Option<nat>)
    requires k == |before| < |ticks| && RunsRightly(c, ticks, before) && Remembers(c, ticks, before, last, k)
    ensures |calls| == k + 1 && RunsRightly(c, ticks, calls) && Remembers(c, ticks, calls, last', k + 1)
  {
    hide RunsRightly, CallsRightly, LeavesRightly, Remembers;
    var b, t := At(c, ticks, k), ticks[k];
    var call := if b.snap.exit.Some? then t.now >= b.snap.expiresAt else LooksForExit(b, t.now);
    calls := before + [call];
    last' := if call && b.snap.exit.None? then Some(k) else last;
    CallIsRight(c, ticks, before, last, call, k);
    EarlierStayRight(c, ticks, before, call);
    RemembersOn(c, ticks, before, last, call, k);
  }

  lemma {:induction false} CallIsRight(c: Clock, ticks: seq<Tick>, before: seq<bool>, last: Option<nat>, call: bool, k: nat)
    requires k == |before| < |ticks| && Remembers(c, ticks, before, last, k)
    requires var b := At(c, ticks, k);
             call == if b.snap.exit.Some? then ticks[k].now >= b.snap.expiresAt else LooksForExit(b, ticks[k].now)
    ensures CallsRightly(c, ticks, before + [call], k)
    ensures LeavesRightly(ticks[k], call, SnapAt(c, ticks, k), SnapAt(c, ticks, k + 1))
  {
    var b, t, calls := At(c, ticks, k), ticks[k], before + [call];
    assert At(c, ticks, k + 1) == Ticked(b, t);
    hide At, Publish;
    PublishIsRight(t.pool.rows, b.idx, t.hold, t.listedAt);
    if b.snap.exit.None? {
      assert forall i: nat :: i < k ==> (Looked(c, ticks, calls, i) <==> Looked(c, ticks, before, i));
      forall j: nat | LastLook(c, ticks, calls, j, k) ensures last == Some(j) {
      }
      if last.Some? {
        assert LastLook(c, ticks, calls, last.value, k);
      }
    }
  }

  lemma {:induction false} PublishIsRight(rows: seq<Row>, idx: nat, hold: int, now: int)
    ensures var s := Publish(rows, idx, hold, now);
            && (if rows == [] then s.exit.None? else s.exit.Some? && s.exit.value in rows)
            && s.switchedAt == now && s.expiresAt == now + if hold > 0 then hold else 60_000_000_000
  {
  }

  lemma {:induction false} EarlierStayRight(c: Clock, ticks: seq<Tick>, before: seq<bool>, call: bool)
    requires |before| < |ticks| && RunsRightly(c, ticks, before)
    requires CallsRightly(c, ticks, before + [call], |before|)
    requires LeavesRightly(ticks[|before|], call, SnapAt(c, ticks, |before|), SnapAt(c, ticks, |before| + 1))
    ensures RunsRightly(c, ticks, before + [call])
  {
    hide SnapAt, LeavesRightly;
    var calls := before + [call];
    forall k | 0 <= k < |before| ensures CallsRightly(c, ticks, calls, k) {
      assert CallsRightly(c, ticks, before, k);
      assert forall i: nat :: i < k ==> (Looked(c, ticks, calls, i) <==> Looked(c, ticks, before, i));
      assert forall j: nat :: LastLook(c, ticks, calls, j, k) <==> LastLook(c, ticks, before, j, k);
    }
  }

  lemma {:induction false} RemembersOn(c: Clock, ticks: seq<Tick>, before: seq<bool>, last: Option<nat>, call: bool, k: nat)
    requires k == |before| < |ticks| && Remembers(c, ticks, before, last, k)
    requires var b := At(c, ticks, k);
             call == if b.snap.exit.Some? then ticks[k].now >= b.snap.expiresAt else LooksForExit(b, ticks[k].now)
    ensures Remembers(c, ticks, before + [call], if call && At(c, ticks, k).snap.exit.None? then Some(k) else last, k + 1)
  {
    var b, calls := At(c, ticks, k), before + [call];
    assert At(c, ticks, k + 1) == Ticked(b, ticks[k]);
    hide At, Publish;
    assert forall i: nat :: i < k ==> (Looked(c, ticks, calls, i) <==> Looked(c, ticks, before, i));
    assert Looked(c, ticks, calls, k) <==> call && b.snap.exit.None?;
  }

  /** The loop itself. It advances once before the first tick; `calls` says at which ticks it calls the
      rotator again. */
  method RunRotator(rot: Rotator, first: Tick, ticks: seq<Tick>)
      returns (ghost start: Clock, ghost end: Clock, ghost calls: seq<bool>)
    modifies rot, rot.st
    ensures start == Advanced(Clock(old(rot.idx), old(rot.snap), None), first)
    ensures LeavesRightly(first, true, old(rot.snap), SnapAt(start, ticks, 0))
    ensures |calls| == |ticks| && RunsRightly(start, ticks, calls)
    ensures end == At(start, ticks, |ticks|)
    ensures rot.idx == end.idx && rot.snap == end.snap
  {
    hide RunsRightly;
    rot.st.table := first.pool;
    var _ := rot.Advance(first.hold, first.listedAt, first.fault);
    var lastNoProxyCheck: Option<int> := None;
    start := Clock(rot.idx, rot.snap, None);
    for k := 0 to |ticks|
      invariant Clock(rot.idx, rot.snap, lastNoProxyCheck) == At(start, ticks, k)
    {
      var t := ticks[k];
      rot.st.table := t.pool;
      if rot.snap.exit.Some? {
        if t.now < rot.snap.expiresAt {
          continue;
        }
        var _ := rot.Advance(t.hold, t.listedAt, t.fault);
        continue;
      }
      if lastNoProxyCheck.Some? && t.now - lastNoProxyCheck.value < RECHECK {
        continue;
      }
      lastNoProxyCheck := Some(t.now);
      var _ := rot.Advance(t.hold, t.listedAt, t.fault);
    }
    end := Clock(rot.idx, rot.snap, lastNoProxyCheck);
    ghost var last;
    calls, last := LoopRunsRightly(start, ticks, |ticks|);
  }

  // ----- an exit is held -----

  /** Whenever there is an exit, whether chosen at a tick or before the first, it is still the exit
      after every tick before its expiry. */
  lemma {:induction false} ExitIsHeld(c: Clock, ticks: seq<Tick>, i: nat, j: nat)
    requires InOrder(ticks) && i < j <= |ticks| && At(c, ticks, i).snap.exit.Some?
    requires ticks[j - 1].now < At(c, ticks, i).snap.expiresAt
    ensures At(c, ticks, j).snap == At(c, ticks, i).snap
  {
    if j > i + 1 {
      assert ticks[j - 2].now <= ticks[j - 1].now;
      ExitIsHeld(c, ticks, i, j - 1);
    }
  }

  /** Two looks at the pool for want of an exit are at least five seconds apart. */
  lemma {:induction false} LooksAreSpaced(c: Clock, ticks: seq<Tick>, i: nat, j: nat)
    requires InOrder(ticks) && i < j < |ticks|
    requires LooksForExit(At(c, ticks, i), ticks[i].now) && LooksForExit(At(c, ticks, j), ticks[j].now)
    ensures ticks[j].now - ticks[i].now >= 5_000_000_000
  {
    LookIsRemembered(c, ticks, i, j);
  }

  lemma {:induction false} LookIsRemembered(c: Clock, ticks: seq<Tick>, i: nat, j: nat)
    requires InOrder(ticks) && i < j <= |ticks| && LooksForExit(At(c, ticks, i), ticks[i].now)
    ensures At(c, ticks, j).lastCheck.Some? && At(c, ticks, j).lastCheck.value >= ticks[i].now
  {
    if j > i + 1 {
      LookIsRemembered(c, ticks, i, j - 1);
    }
  }

  // ----- an exit is replaced, and found, in time -----

  /** Ticks are at most `delta` apart. */
  ghost predicate Regular(ticks: seq<Tick>, delta: int) {
    forall i :: 0 < i < |ticks| ==> ticks[i].now <= ticks[i - 1].now + delta
  }

  /** Listing works at every tick. */
  ghost predicate Listable(ticks: seq<Tick>) {
    forall i :: 0 <= i < |ticks| ==> !ticks[i].fault
  }

  /** At tick `j` an exit that was there since tick `i` is replaced by a new choice, less than `delta`
      after it expired. */
  ghost predicate Rechosen(c: Clock, ticks: seq<Tick>, i: nat, j: nat, delta: int)
    requires i <= j < |ticks|
  {
    var expiry := At(c, ticks, i).snap.expiresAt;
    && (forall k :: i <= k <= j ==> At(c, ticks, k).snap == At(c, ticks, i).snap)
    && expiry <= ticks[j].now < expiry + delta
    && At(c, ticks, j + 1).snap == Publish(ticks[j].pool.rows, At(c, ticks, j).idx, ticks[j].hold, ticks[j].listedAt)
  }

  lemma {:induction false} RechosenInTime(c: Clock, ticks: seq<Tick>, i: nat, late: nat, delta: int) returns (j: nat)
    requires InOrder(ticks) && Regular(ticks, delta) && Listable(ticks) && i <= late < |ticks|
    requires At(c, ticks, i).snap.exit.Some? && At(c, ticks, i).snap.expiresAt <= ticks[late].now
    requires ticks[i].now < At(c, ticks, i).snap.expiresAt + delta
    ensures i <= j <= late && Rechosen(c, ticks, i, j, delta)
  {
    var snap := At(c, ticks, i).snap;
    j := i;
    while ticks[j].now < snap.expiresAt
      invariant i <= j <= late
      invariant forall k :: i <= k <= j ==> At(c, ticks, k).snap == snap
      invariant ticks[j].now < snap.expiresAt + delta
      decreases late - j
    {
      ExitIsHeld(c, ticks, i, j + 1);
      j := j + 1;
    }
  }

  /** With regular ticks and working listings, an exit published at tick `i` with hold h stays the exit
      until some tick less than `delta` after listing time + h, where a new choice is made; all that is
      needed is that the ticks go on that long. */
  lemma {:induction false} ExpiredExitIsRechosen(c: Clock, ticks: seq<Tick>, i: nat, late: nat, delta: int) returns (j: nat)
    requires InOrder(ticks) && Regular(ticks, delta) && Listable(ticks) && i < late < |ticks|
    requires At(c, ticks, i + 1).snap == Publish(ticks[i].pool.rows, At(c, ticks, i).idx, ticks[i].hold, ticks[i].listedAt)
    requires At(c, ticks, i + 1).snap.exit.Some?
    requires ticks[i].listedAt + ticks[i].hold <= ticks[late].now
    ensures i < j <= late && Rechosen(c, ticks, i + 1, j, delta)
    ensures ticks[i].listedAt + ticks[i].hold <= ticks[j].now < ticks[i].listedAt + ticks[i].hold + delta
  {
    assert ticks[i + 1].now <= ticks[i].now + delta;
    j := RechosenInTime(c, ticks, i + 1, late, delta);
  }

  /** The same for the exit chosen before the first tick. */
  lemma {:induction false} StartupExitIsRechosen(idx: nat, snap: ExitSnapshot, first: Tick,
                                                 ticks: seq<Tick>, late: nat, delta: int)
      returns (j: nat)
    requires InOrder([first] + ticks) && Regular([first] + ticks, delta) && Listable([first] + ticks)
    requires first.pool.rows != [] && late < |ticks| && first.listedAt + first.hold <= ticks[late].now
    ensures j <= late && Rechosen(Advanced(Clock(idx, snap, None), first), ticks, 0, j, delta)
    ensures first.listedAt + first.hold <= ticks[j].now < first.listedAt + first.hold + delta
  {
    var all := [first] + ticks;
    assert forall k :: 0 <= k < |ticks| ==> all[k + 1] == ticks[k];
    assert all[0] == first && all[1].now <= all[0].now + delta;
    forall i | 0 < i < |ticks| ensures ticks[i].now <= ticks[i - 1].now + delta {
      assert all[i + 1].now <= all[i].now + delta;
    }
    j := RechosenInTime(Advanced(Clock(idx, snap, None), first), ticks, 0, late, delta);
  }

  /** From `since` on, listing succeeds and finds the pool non-empty. */
  ghost predicate FilledSince(ticks: seq<Tick>, since: int) {
    forall i :: 0 <= i < |ticks| && ticks[i].listedAt >= since ==> !ticks[i].fault && ticks[i].pool.rows != []
  }

  ghost predicate StartedBefore(c: Clock, since: int) {
    c.lastCheck.Some? ==> c.lastCheck.value < since
  }

  lemma {:induction false} LookIsPast(c: Clock, ticks: seq<Tick>, since: int, k: nat)
    requires InOrder(ticks) && StartedBefore(c, since) && k <= |ticks|
    ensures StartedBefore(At(c, ticks, k), since) || (k > 0 && At(c, ticks, k).lastCheck.value <= ticks[k - 1].now)
  {
    if k > 0 {
      LookIsPast(c, ticks, since, k - 1);
      assert k > 1 ==> ticks[k - 2].now <= ticks[k - 1].now;
    }
  }

  /** While there is no exit, the last look was made before the pool filled. */
  lemma {:induction false} LookWasBefore(c: Clock, ticks: seq<Tick>, since: int, k: nat)
    requires InOrder(ticks) && FilledSince(ticks, since) && StartedBefore(c, since) && k <= |ticks|
    ensures At(c, ticks, k).snap.exit.None? ==> StartedBefore(At(c, ticks, k), since)
  {
    if k > 0 {
      LookWasBefore(c, ticks, since, k - 1);
      LookIsPast(c, ticks, since, k - 1);
      assert k > 1 ==> ticks[k - 2].now <= ticks[k - 1].now;
      assert ticks[k - 1].now <= ticks[k - 1].listedAt;
    }
  }

  lemma {:induction false} ExitIsThere(c: Clock, ticks: seq<Tick>, since: int, k: nat)
    requires InOrder(ticks) && FilledSince(ticks, since) && StartedBefore(c, since) && k < |ticks|
    requires ticks[k].now >= since + RECHECK
    ensures At(c, ticks, k + 1).snap.exit.Some?
  {
    LookWasBefore(c, ticks, since, k);
    assert ticks[k].now <= ticks[k].listedAt;
  }

  /** Once the pool has filled and stays filled, an exit appears within five seconds and one tick,
      and there is one ever after. */
  lemma {:induction false} ExitAppearsInTime(c: Clock, ticks: seq<Tick>, since: int, k: nat, delta: int)
    requires InOrder(ticks) && Regular(ticks, delta) && FilledSince(ticks, since) && StartedBefore(c, since)
    requires 0 < k < |ticks| && ticks[k - 1].now < since + 5_000_000_000 <= ticks[k].now
    ensures ticks[k].now < since + 5_000_000_000 + delta
    ensures forall j :: k < j <= |ticks| ==> At(c, ticks, j).snap.exit.Some?
  {
    assert ticks[k].now <= ticks[k - 1].now + delta;
    forall j | k < j <= |ticks| ensures At(c, ticks, j).snap.exit.Some? {
      assert ticks[k].now <= ticks[j - 1].now;
      ExitIsThere(c, ticks, since, j - 1);
    }
  }
}
