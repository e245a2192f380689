/** The worker pool shared by fetching and retesting: a dispatcher that starts one worker per job,
    a semaphore that bounds how many run, a wait group, and counters under a mutex. One worker step
    is one atomic action; steps of different workers, and statements from elsewhere, interleave
    freely. */
module WorkerPool {
  import opened Text
  import opened ProxyTable
  import opened ProxyStore

  datatype Kind = Retest | Fetch

  datatype Job = Job(id: int, key: Key, country: string)

  /** What the outside world will answer to a job's worker. */
  datatype Answer = Answer(passed: bool, latency: int, storeFault: bool)

  datatype Outcome = Stored | Failed | StoreError

  datatype Plan = Plan(kind: Kind, jobs: seq<Job>, answers: seq<Answer>, limit: nat) {
    ghost predicate Valid() {
      |jobs| == |answers| && limit >= 1
    }
  }

  function OutcomeOf(kind: Kind, job: Job, a: Answer): Outcome {
    if a.passed then
      if Complete(job.key) && !a.storeFault then Stored else StoreError
    else if kind.Fetch? || job.id <= 0 || !a.storeFault then Failed
    else StoreError
  }

  /** A passed test counts as stored if the store takes the report, and else as a store error; a failed
      one counts as failed, unless a retest's delete was sent and did not work. */
  lemma {:induction false} OutcomesAre(kind: Kind, job: Job, a: Answer)
    ensures OutcomeOf(kind, job, a) == Stored <==> a.passed && Complete(job.key) && !a.storeFault
    ensures OutcomeOf(kind, job, a) == Failed <==> !a.passed && (kind == Fetch || job.id <= 0 || !a.storeFault)
  {
  }

  /** How far a worker has got. */
  type Stage = s: nat | s <= DONE
  const WAITING: nat := 0    // not dispatched
  const STARTED: nat := 1    // holds a slot of the semaphore
  const TESTING: nat := 2    // counted as tested, test running
  const JUDGED: nat := 3     // test returned
  const RECORDED: nat := 4   // statement executed
  const COUNTED: nat := 5    // outcome counted
  const SAMPLED: nat := 6    // error sampled, if there was one
  const RELEASED: nat := 7   // slot given back
  const DONE: nat := 8       // wait group notified

  const MAX_SAMPLES: nat := 5

  datatype Tally = Tally(tested: nat, stored: nat, failed: nat, errors: nat, samples: seq<nat>)

  datatype Workers = Workers(stages: seq<Stage>, sem: nat, wg: int, tally: Tally, cancelled: bool)

  datatype Pool = Pool(workers: Workers, table: Table)

  /** Readings taken by the statement: the two times and how many ids it burns. */
  datatype Reading = Reading(testedAt: int, now: int, skip: nat)

  /** A worker's step, a statement from elsewhere, or the cancellation of the context. */
  datatype Move = Work(w: nat, reading: Reading) | Other(op: Op) | Cancel

  function InitWorkers(n: nat): Workers {
    Workers(seq(n, _ => WAITING), 0, 0, Tally(0, 0, 0, 0, []), false)
  }

  /** Jobs are dispatched in order, and only while the semaphore has room; giving a slot back waits
      until the semaphore holds one. The dispatcher looks for a cancellation, and either way goes on. */
  predicate CanStep(plan: Plan, ws: Workers, w: nat) {
    && w < |ws.stages| && ws.stages[w] < DONE
    && (ws.stages[w] == WAITING ==>
          ws.sem < plan.limit && forall k :: 0 <= k < w ==> ws.stages[k] != WAITING)
    && (ws.stages[w] == SAMPLED ==> ws.sem > 0)
  }

  /** The statement a judged worker executes. */
  function Statement(kind: Kind, job: Job, a: Answer, r: Reading): Op {
    if a.passed then
      if a.storeFault then NoChange
      else Upsert(Report(job.key, job.country, r.testedAt, a.latency, r.now), r.skip)
    else if kind.Fetch? || a.storeFault then NoChange
    else DeleteOne(job.id)
  }

  function Count(t: Tally, o: Outcome): Tally {
    match o
    case Stored => t.(stored := t.stored + 1)
    case Failed => t.(failed := t.failed + 1)
    case StoreError => t.(errors := t.errors + 1)
  }

  function Sample(t: Tally, o: Outcome, w: nat): Tally {
    if o.Stored? || |t.samples| >= MAX_SAMPLES then t else t.(samples := t.samples + [w])
  }

  /** One step of worker `w`, whose outcome is or will be `o`, apart from its statement. */
  function StepBy(plan: Plan, ws: Workers, w: nat, o: Outcome): Workers
    requires CanStep(plan, ws, w)
  {
    var s := ws.stages[w];
    var next := ws.(stages := ws.stages[w := s + 1]);
    if s == WAITING then next.(sem := ws.sem + 1, wg := ws.wg + 1)
    else if s == STARTED then next.(tally := ws.tally.(tested := ws.tally.tested + 1))
    else if s == RECORDED then next.(tally := Count(ws.tally, o))
    else if s == COUNTED then next.(tally := Sample(ws.tally, o, w))
    else if s == SAMPLED then next.(sem := ws.sem - 1)
    else if s == RELEASED then next.(wg := ws.wg - 1)
    else next
  }

  function StepWorkers(plan: Plan, ws: Workers, w: nat): Workers
    requires plan.Valid() && |ws.stages| == |plan.jobs| && CanStep(plan, ws, w)
  {
    StepBy(plan, ws, w, OutcomeOf(plan.kind, plan.jobs[w], plan.answers[w]))
  }

  function StepTable(plan: Plan, p: Pool, w: nat, r: Reading): Table
    requires plan.Valid() && w < |p.workers.stages| == |plan.jobs|
  {
    if p.workers.stages[w] == JUDGED
    then Apply(p.table, Statement(plan.kind, plan.jobs[w], plan.answers[w], r))
    else p.table
  }

  ghost predicate Legal(plan: Plan, p: Pool, moves: seq<Move>)
    requires plan.Valid() && |p.workers.stages| == |plan.jobs|
    decreases moves
  {
    moves == [] ||
    ((moves[0].Work? ==> CanStep(plan, p.workers, moves[0].w)) &&
     Legal(plan, Do(plan, p, moves[0]), moves[1..]))
  }

  function Do(plan: Plan, p: Pool, m: Move): (q: Pool)
    requires plan.Valid() && |p.workers.stages| == |plan.jobs|
    requires m.Work? ==> CanStep(plan, p.workers, m.w)
    ensures |q.workers.stages| == |plan.jobs|
  {
    match m
    case Work(w, r) => Pool(StepWorkers(plan, p.workers, w), StepTable(plan, p, w, r))
    case Other(op) => p.(table := Apply(p.table, op))
    case Cancel => p.(workers := p.workers.(cancelled := true))
  }

  ghost function Play(plan: Plan, p: Pool, moves: seq<Move>): (q: Pool)
    requires plan.Valid() && |p.workers.stages| == |plan.jobs| && Legal(plan, p, moves)
    ensures |q.workers.stages| == |plan.jobs|
    decreases moves
  {
    if moves == [] then p else Play(plan, Do(plan, p, moves[0]), moves[1..])
  }

  // ----- counting workers -----

  /** The workers of `who` whose stage lies in lo..hi-1. */
  ghost function Among(stages: seq<Stage>, lo: nat, hi: nat, who: set<nat>): set<nat> {
    set i: nat | i in who && i < |stages| && lo <= stages[i] < hi
  }

  ghost function All(n: nat): (r: set<nat>)
    ensures forall i: nat :: i in r <==> i < n
  {
    if n == 0 then {} else All(n - 1) + {n - 1}
  }

  ghost function With(plan: Plan, o: Outcome): set<nat>
    requires plan.Valid()
  {
    set i: nat | i < |plan.jobs| && OutcomeOf(plan.kind, plan.jobs[i], plan.answers[i]) == o
  }

  ghost function Unhappy(plan: Plan): set<nat>
    requires plan.Valid()
  {
    With(plan, Failed) + With(plan, StoreError)
  }

  lemma {:induction false} AmongStep(stages: seq<Stage>, w: nat, lo: nat, hi: nat, who: set<nat>)
    requires w < |stages| && stages[w] < DONE && lo < hi
    ensures var s := stages[w];
            |Among(stages[w := s + 1], lo, hi, who)| == |Among(stages, lo, hi, who)|
              + (if w in who && s + 1 == lo then 1 else 0) - (if w in who && s + 1 == hi then 1 else 0)
  {
    var s := stages[w];
    var next := stages[w := s + 1];
    var a, b := Among(stages, lo, hi, who), Among(next, lo, hi, who);
    assert a - {w} == b - {w};
    SizeAround(a, w);
    SizeAround(b, w);
  }

  lemma {:induction false} SizeAround(a: set<nat>, w: nat)
    ensures |a| == |a - {w}| + if w in a then 1 else 0
  {
  }

  lemma {:induction false} AllSize(n: nat)
    ensures |All(n)| == n
  {
    if n > 0 {
      AllSize(n - 1);
      assert n - 1 !in All(n - 1);
    }
  }

  // ----- what holds in every state -----

  ghost predicate Dispatched(ws: Workers) {
    forall i, j :: 0 <= i < j < |ws.stages| && ws.stages[j] != WAITING ==> ws.stages[i] != WAITING
  }

  /** The semaphore, the wait group and every counter say exactly what the workers' stages say. */
  ghost predicate Inv(plan: Plan, ws: Workers)
    requires plan.Valid()
  {
    && |ws.stages| == |plan.jobs| && Dispatched(ws)
    && ws.sem == |Among(ws.stages, STARTED, RELEASED, All(|plan.jobs|))| <= plan.limit
    && ws.wg == |Among(ws.stages, STARTED, DONE, All(|plan.jobs|))|
    && ws.tally.tested == |Among(ws.stages, TESTING, DONE + 1, All(|plan.jobs|))|
    && ws.tally.stored == |Among(ws.stages, COUNTED, DONE + 1, With(plan, Stored))|
    && ws.tally.failed == |Among(ws.stages, COUNTED, DONE + 1, With(plan, Failed))|
    && ws.tally.errors == |Among(ws.stages, COUNTED, DONE + 1, With(plan, StoreError))|
    && |ws.tally.samples| == Capped(|Among(ws.stages, SAMPLED, DONE + 1, Unhappy(plan))|)
    && SamplesOf(ws.tally.samples, Among(ws.stages, SAMPLED, DONE + 1, Unhappy(plan)))
  }

  function Capped(n: nat): (r: nat)
    ensures r <= n && r <= 5 && (r == n || r == 5)
  {
    if n < MAX_SAMPLES then n else MAX_SAMPLES
  }

  /** Different members of `who`. */
  ghost predicate SamplesOf(samples: seq<nat>, who: set<nat>) {
    && (forall i :: 0 <= i < |samples| ==> samples[i] in who)
    && forall i, j :: 0 <= i < j < |samples| ==> samples[i] != samples[j]
  }

  lemma {:induction false} SamplesStep(samples: seq<nat>, stages: seq<Stage>, w: nat, who: set<nat>)
    requires w < |stages| && stages[w] < DONE && SamplesOf(samples, Among(stages, SAMPLED, DONE + 1, who))
    ensures var next := stages[w := stages[w] + 1];
            && SamplesOf(samples, Among(next, SAMPLED, DONE + 1, who))
            && (stages[w] == COUNTED && w in who ==> SamplesOf(samples + [w], Among(next, SAMPLED, DONE + 1, who)))
  {
  }

  lemma {:induction false} InitInv(plan: Plan)
    requires plan.Valid()
    ensures Inv(plan, InitWorkers(|plan.jobs|))
  {
  }

  lemma {:induction false} NoneAmong(stages: seq<Stage>, lo: nat, hi: nat, who: set<nat>)
    requires forall i :: 0 <= i < |stages| ==> !(lo <= stages[i] < hi)
    ensures Among(stages, lo, hi, who) == {}
  {
  }

  lemma {:induction false} StepInv(plan: Plan, ws: Workers, w: nat)
    requires plan.Valid() && Inv(plan, ws) && CanStep(plan, ws, w)
    ensures Inv(plan, StepWorkers(plan, ws, w))
  {
    hide Among, Dispatched, SamplesOf;
    AmongStep(ws.stages, w, STARTED, RELEASED, All(|plan.jobs|));
    AmongStep(ws.stages, w, STARTED, DONE, All(|plan.jobs|));
    AmongStep(ws.stages, w, TESTING, DONE + 1, All(|plan.jobs|));
    AmongStep(ws.stages, w, COUNTED, DONE + 1, With(plan, Stored));
    AmongStep(ws.stages, w, COUNTED, DONE + 1, With(plan, Failed));
    AmongStep(ws.stages, w, COUNTED, DONE + 1, With(plan, StoreError));
    AmongStep(ws.stages, w, SAMPLED, DONE + 1, Unhappy(plan));
    SamplesStep(ws.tally.samples, ws.stages, w, Unhappy(plan));
    DispatchedStep(plan, ws, w);
  }

  lemma {:induction false} DispatchedStep(plan: Plan, ws: Workers, w: nat)
    requires plan.Valid() && |ws.stages| == |plan.jobs| && Dispatched(ws) && CanStep(plan, ws, w)
    ensures Dispatched(StepWorkers(plan, ws, w))
  {
  }

  /** Whatever the schedule and whoever else uses the table, the counters stay exact, and never do
      more than `limit` tests run. */
  lemma {:induction false} PlayInv(plan: Plan, p: Pool, moves: seq<Move>)
    requires plan.Valid() && Inv(plan, p.workers) && Legal(plan, p, moves)
    ensures Inv(plan, Play(plan, p, moves).workers)
    decreases moves
  {
    if moves != [] {
      if moves[0].Work? {
        StepInv(plan, p.workers, moves[0].w);
      }
      PlayInv(plan, Do(plan, p, moves[0]), moves[1..]);
    }
  }

  lemma {:induction false} NeverTooManyTests(plan: Plan, t: Table, moves: seq<Move>)
    requires plan.Valid() && Legal(plan, Pool(InitWorkers(|plan.jobs|), t), moves)
    ensures var ws := Play(plan, Pool(InitWorkers(|plan.jobs|), t), moves).workers;
            |Among(ws.stages, TESTING, JUDGED, All(|plan.jobs|))| <= ws.sem <= plan.limit
  {
    hide Legal, Play, InitWorkers;
    InitInv(plan);
    PlayInv(plan, Pool(InitWorkers(|plan.jobs|), t), moves);
    var ws := Play(plan, Pool(InitWorkers(|plan.jobs|), t), moves).workers;
    var testing := Among(ws.stages, TESTING, JUDGED, All(|plan.jobs|));
    var holding := Among(ws.stages, STARTED, RELEASED, All(|plan.jobs|));
    assert testing <= holding && holding == testing + (holding - testing);
  }

  /** At no point of the run do more than `n` tests run. */
  ghost predicate NeverMoreThan(plan: Plan, t: Table, moves: seq<Move>, n: int)
    requires plan.Valid()
  {
    forall k :: 0 <= k <= |moves| ==>
      var p := Pool(InitWorkers(|plan.jobs|), t);
      && Legal(plan, p, moves[..k])
      && |Among(Play(plan, p, moves[..k]).workers.stages, TESTING, JUDGED, All(|plan.jobs|))| <= n
  }

  lemma {:induction false} LegalPrefix(plan: Plan, p: Pool, moves: seq<Move>, k: nat)
    requires plan.Valid() && |p.workers.stages| == |plan.jobs| && Legal(plan, p, moves) && k <= |moves|
    ensures Legal(plan, p, moves[..k])
    decreases k
  {
    if k > 0 {
      LegalPrefix(plan, Do(plan, p, moves[0]), moves[1..], k - 1);
      assert moves[..k][1..] == moves[1..][..k - 1];
    }
  }

  lemma {:induction false} LimitIsKept(plan: Plan, t: Table, moves: seq<Move>)
    requires plan.Valid() && Legal(plan, Pool(InitWorkers(|plan.jobs|), t), moves)
    ensures NeverMoreThan(plan, t, moves, plan.limit)
  {
    hide Legal, Play, Among;
    forall k | 0 <= k <= |moves|
      ensures var p := Pool(InitWorkers(|plan.jobs|), t);
              && Legal(plan, p, moves[..k])
              && |Among(Play(plan, p, moves[..k]).workers.stages, TESTING, JUDGED, All(|plan.jobs|))| <= plan.limit
    {
      LegalPrefix(plan, Pool(InitWorkers(|plan.jobs|), t), moves, k);
      NeverTooManyTests(plan, t, moves[..k]);
    }
  }

  // ----- progress and termination -----

  predicate Finished(ws: Workers) {
    forall i :: 0 <= i < |ws.stages| ==> ws.stages[i] == DONE
  }

  lemma {:induction false} SlotIsHeld(plan: Plan, ws: Workers, w: nat)
    requires plan.Valid() && Inv(plan, ws) && w < |ws.stages| && STARTED <= ws.stages[w] < RELEASED
    ensures ws.sem > 0
  {
    assert w in Among(ws.stages, STARTED, RELEASED, All(|plan.jobs|));
  }

  lemma {:induction false} NoSlotIsHeld(plan: Plan, ws: Workers)
    requires plan.Valid() && Inv(plan, ws)
    requires forall i :: 0 <= i < |ws.stages| ==> !(STARTED <= ws.stages[i] < RELEASED)
    ensures ws.sem == 0 && Dispatched(ws)
  {
  }

  /** No deadlock: until every worker is done, some worker can move, and a started one always can. */
  lemma {:induction false} SomeoneCanStep(plan: Plan, ws: Workers) returns (w: nat)
    requires plan.Valid() && Inv(plan, ws) && !Finished(ws)
    ensures CanStep(plan, ws, w)
    ensures forall i: nat :: i < |ws.stages| && STARTED <= ws.stages[i] < DONE ==> CanStep(plan, ws, i)
  {
    hide Inv;
    forall i: nat | i < |ws.stages| && STARTED <= ws.stages[i] < DONE ensures CanStep(plan, ws, i) {
      if ws.stages[i] == SAMPLED {
        SlotIsHeld(plan, ws, i);
      }
    }
    if i: nat :| i < |ws.stages| && STARTED <= ws.stages[i] < DONE {
      return i;
    }
    NoSlotIsHeld(plan, ws);
    w :| 0 <= w < |ws.stages| && ws.stages[w] == WAITING;
    while w > 0 && ws.stages[w - 1] == WAITING
      invariant w < |ws.stages| && ws.stages[w] == WAITING
    {
      w := w - 1;
    }
  }

  /** Steps the workers have yet to take. */
  function Left(stages: seq<Stage>): nat {
    if stages == [] then 0 else DONE - stages[0] + Left(stages[1..])
  }

  lemma {:induction false} StepUsesOne(stages: seq<Stage>, w: nat)
    requires w < |stages| && stages[w] < DONE
    ensures Left(stages[w := stages[w] + 1]) == Left(stages) - 1
  {
    var next := stages[w := stages[w] + 1];
    if w == 0 {
      assert next[1..] == stages[1..];
    } else {
      assert next[1..] == stages[1..][w - 1 := stages[w] + 1];
      StepUsesOne(stages[1..], w - 1);
    }
  }

  lemma {:induction false} LeftExtremes(stages: seq<Stage>)
    ensures Left(stages) == 0 <==> forall i :: 0 <= i < |stages| ==> stages[i] == DONE
    ensures (forall i :: 0 <= i < |stages| ==> stages[i] == WAITING) ==> Left(stages) == DONE * |stages|
  {
    if stages != [] {
      LeftExtremes(stages[1..]);
      if Left(stages) == 0 {
        forall i | 0 <= i < |stages| ensures stages[i] == DONE {
          assert i > 0 ==> stages[i] == stages[1..][i - 1];
        }
      }
    }
  }

  function WorkMoves(moves: seq<Move>): nat {
    if moves == [] then 0 else (if moves[0].Work? then 1 else 0) + WorkMoves(moves[1..])
  }

  /** Every schedule finishes, and after exactly eight steps per job. */
  lemma {:induction false} EveryScheduleFinishes(plan: Plan, t: Table, moves: seq<Move>)
    requires plan.Valid() && Legal(plan, Pool(InitWorkers(|plan.jobs|), t), moves)
    ensures var ws := Play(plan, Pool(InitWorkers(|plan.jobs|), t), moves).workers;
            && WorkMoves(moves) <= DONE * |plan.jobs|
            && (Finished(ws) <==> WorkMoves(moves) == DONE * |plan.jobs|)
            && (!Finished(ws) ==> exists w: nat :: CanStep(plan, ws, w))
  {
    var p := Pool(InitWorkers(|plan.jobs|), t);
    InitInv(plan);
    PlayInv(plan, p, moves);
    PlayUses(plan, p, moves);
    var ws := Play(plan, p, moves).workers;
    LeftExtremes(p.workers.stages);
    LeftExtremes(ws.stages);
    if !Finished(ws) {
      var w := SomeoneCanStep(plan, ws);
    }
  }

  lemma {:induction false} PlayUses(plan: Plan, p: Pool, moves: seq<Move>)
    requires plan.Valid() && |p.workers.stages| == |plan.jobs| && Legal(plan, p, moves)
    ensures Left(p.workers.stages) == Left(Play(plan, p, moves).workers.stages) + WorkMoves(moves)
    decreases moves
  {
    if moves != [] {
      if moves[0].Work? {
        StepUsesOne(p.workers.stages, moves[0].w);
      }
      PlayUses(plan, Do(plan, p, moves[0]), moves[1..]);
    }
  }

  // ----- the accounts when the wait returns -----

  /** The wait group only reaches zero after the last dispatch when every worker is done; the
      semaphore is then empty, each job was tested once and has exactly one outcome, and at most
      five errors were sampled. */
  lemma {:induction false} AccountsBalance(plan: Plan, ws: Workers)
    requires plan.Valid() && Inv(plan, ws)
    requires ws.wg == 0 && forall i :: 0 <= i < |ws.stages| ==> ws.stages[i] != WAITING
    ensures Finished(ws) && ws.sem == 0
    ensures ws.tally.tested == |plan.jobs| == ws.tally.stored + ws.tally.failed + ws.tally.errors
    ensures ws.tally.stored == |With(plan, Stored)|
    ensures ws.tally.failed == |With(plan, Failed)|
    ensures ws.tally.errors == |With(plan, StoreError)|
    ensures var unhappy := ws.tally.failed + ws.tally.errors;
            |ws.tally.samples| == if unhappy < 5 then unhappy else 5
    ensures SamplesOf(ws.tally.samples, Unhappy(plan))
  {
    var n := |plan.jobs|;
    assert Among(ws.stages, STARTED, DONE, All(n)) == {};
    assert forall i: nat :: i < n ==> (i in Among(ws.stages, STARTED, DONE, All(n)) <==> ws.stages[i] < DONE);
    NoneAmong(ws.stages, STARTED, RELEASED, All(n));
    AllAmong(ws.stages, TESTING, All(n));
    AllAmong(ws.stages, COUNTED, With(plan, Stored));
    AllAmong(ws.stages, COUNTED, With(plan, Failed));
    AllAmong(ws.stages, COUNTED, With(plan, StoreError));
    AllAmong(ws.stages, SAMPLED, Unhappy(plan));
    OutcomesPartition(plan);
  }

  lemma {:induction false} OutcomesPartition(plan: Plan)
    requires plan.Valid()
    ensures |All(|plan.jobs|)| == |plan.jobs|
    ensures |Unhappy(plan)| == |With(plan, Failed)| + |With(plan, StoreError)|
    ensures |plan.jobs| == |With(plan, Stored)| + |Unhappy(plan)|
  {
    AllSize(|plan.jobs|);
    assert With(plan, Stored) !! Unhappy(plan) && With(plan, Failed) !! With(plan, StoreError);
    assert All(|plan.jobs|) == With(plan, Stored) + Unhappy(plan);
  }

  lemma {:induction false} AllAmong(stages: seq<Stage>, lo: nat, who: set<nat>)
    requires lo <= DONE && forall i :: 0 <= i < |stages| ==> stages[i] == DONE
    requires forall i :: i in who ==> i < |stages|
    ensures Among(stages, lo, DONE + 1, who) == who
  {
  }

  // ----- cancellation -----

  function WithoutCancels(moves: seq<Move>): seq<Move> {
    if moves == [] then []
    else (if moves[0].Cancel? then [] else [moves[0]]) + WithoutCancels(moves[1..])
  }

  function Uncancelled(p: Pool): Pool {
    p.(workers := p.workers.(cancelled := false))
  }

  lemma {:induction false} DoIgnoresCancel(plan: Plan, p: Pool, m: Move)
    requires plan.Valid() && |p.workers.stages| == |plan.jobs| && (m.Work? ==> CanStep(plan, p.workers, m.w))
    ensures m.Work? ==> CanStep(plan, Uncancelled(p).workers, m.w)
    ensures Uncancelled(Do(plan, p, m)) == if m.Cancel? then Uncancelled(p) else Do(plan, Uncancelled(p), m)
  {
  }

  lemma {:induction false} CancelIsIgnored(plan: Plan, p: Pool, moves: seq<Move>)
    requires plan.Valid() && |p.workers.stages| == |plan.jobs| && Legal(plan, p, moves)
    ensures Legal(plan, Uncancelled(p), WithoutCancels(moves))
    ensures Play(plan, Uncancelled(p), WithoutCancels(moves)) == Uncancelled(Play(plan, p, moves))
    decreases moves
  {
    if moves != [] {
      hide Do;
      var q, rest := Do(plan, p, moves[0]), moves[1..];
      CancelIsIgnored(plan, q, rest);
      DoIgnoresCancel(plan, p, moves[0]);
      if moves[0].Cancel? {
        assert [] + WithoutCancels(rest) == WithoutCancels(rest);
      } else {
        assert ([moves[0]] + WithoutCancels(rest))[1..] == WithoutCancels(rest);
      }
    }
  }

  /** The context may be cancelled at any step, any number of times: the run is the run without the
      cancellations, and one that cannot go on has dispatched, tested and counted every job. */
  lemma {:induction false} CancellationStopsNothing(plan: Plan, t: Table, moves: seq<Move>)
    requires plan.Valid() && Legal(plan, Pool(InitWorkers(|plan.jobs|), t), moves)
    ensures var p := Pool(InitWorkers(|plan.jobs|), t);
            && Legal(plan, p, WithoutCancels(moves))
            && Play(plan, p, WithoutCancels(moves)) == Uncancelled(Play(plan, p, moves))
    ensures var ws := Play(plan, Pool(InitWorkers(|plan.jobs|), t), moves).workers;
            (forall w: nat :: !CanStep(plan, ws, w)) ==>
              && Finished(ws) && ws.sem == 0 && ws.wg == 0
              && ws.tally.tested == |plan.jobs| == ws.tally.stored + ws.tally.failed + ws.tally.errors
  {
    hide Legal, Play, Inv, CanStep;
    var p := Pool(InitWorkers(|plan.jobs|), t);
    CancelIsIgnored(plan, p, moves);
    EveryScheduleFinishes(plan, t, moves);
    InitInv(plan);
    PlayInv(plan, p, moves);
    var ws := Play(plan, p, moves).workers;
    if forall w: nat :: !CanStep(plan, ws, w) {
      NobodyIsWaitedFor(plan, ws);
      AccountsBalance(plan, ws);
    }
  }

  // ----- running the pool against the store -----

  lemma {:induction false} PlaySnoc(plan: Plan, p: Pool, moves: seq<Move>, m: Move)
    requires plan.Valid() && |p.workers.stages| == |plan.jobs| && Legal(plan, p, moves)
    requires m.Work? ==> CanStep(plan, Play(plan, p, moves).workers, m.w)
    ensures Legal(plan, p, moves + [m])
    ensures Play(plan, p, moves + [m]) == Do(plan, Play(plan, p, moves), m)
    decreases moves
  {
    if moves == [] {
      assert [m][1..] == [];
    } else {
      assert (moves + [m])[1..] == moves[1..] + [m];
      PlaySnoc(plan, Do(plan, p, moves[0]), moves[1..], m);
    }
  }

  /** Nobody but the pool's workers uses the table. */
  ghost predicate Alone(moves: seq<Move>) {
    forall i :: 0 <= i < |moves| ==> !moves[i].Other?
  }

  lemma {:induction false} PlayKeepsValid(plan: Plan, p: Pool, moves: seq<Move>)
    requires plan.Valid() && |p.workers.stages| == |plan.jobs| && Valid(p.table) && Legal(plan, p, moves)
    ensures Valid(Play(plan, p, moves).table) && Follows(p.table, Play(plan, p, moves).table)
    decreases moves
  {
    FollowsRefl(p.table);
    if moves != [] {
      var q := Do(plan, p, moves[0]);
      if moves[0].Other? {
        ApplyKeepsValid(p.table, moves[0].op);
      } else if moves[0].Work? && p.workers.stages[moves[0].w] == JUDGED {
        var w := moves[0].w;
        ApplyKeepsValid(p.table, Statement(plan.kind, plan.jobs[w], plan.answers[w], moves[0].reading));
      }
      PlayKeepsValid(plan, q, moves[1..]);
      FollowsTrans(p.table, q.table, Play(plan, p, moves).table);
    }
  }

  /** `moves` is a schedule of the pool, alone, from `t` to the given workers and table. */
  ghost predicate Ran(plan: Plan, t: Table, moves: seq<Move>, ws: Workers, u: Table)
    requires plan.Valid()
  {
    && Alone(moves)
    && Legal(plan, Pool(InitWorkers(|plan.jobs|), t), moves)
    && Play(plan, Pool(InitWorkers(|plan.jobs|), t), moves) == Pool(ws, u)
  }

  lemma {:induction false} RanOneMore(plan: Plan, t: Table, moves: seq<Move>, ws: Workers, u: Table, m: Move)
    requires plan.Valid() && Ran(plan, t, moves, ws, u) && |ws.stages| == |plan.jobs|
    requires !m.Other? && (m.Work? ==> CanStep(plan, ws, m.w))
    ensures var q := Do(plan, Pool(ws, u), m); Ran(plan, t, moves + [m], q.workers, q.table)
  {
    PlaySnoc(plan, Pool(InitWorkers(|plan.jobs|), t), moves, m);
  }

  /** Dispatches every job and waits, under an arbitrary scheduler and with a cancellation at any
      time. `moves` is the schedule that was taken; with nobody else writing, the pool's run is the
      machine's run of that schedule. */
  method RunPool(st: Store, plan: Plan) returns (ws: Workers, ghost moves: seq<Move>)
    requires plan.Valid()
    modifies st
    ensures Finished(ws) && Inv(plan, ws) && ws.wg == 0
    ensures Ran(plan, old(st.table), moves, ws, st.table)
  {
    hide Ran, Inv, Left, OutcomeOf;
    ws := InitWorkers(|plan.jobs|);
    moves := [];
    var outcomes: map<nat, Outcome> := map[];
    InitInv(plan);
    RanNothing(plan, st.table);
    while !Finished(ws)
      invariant |ws.stages| == |plan.jobs| && Inv(plan, ws) && Known(plan, ws, outcomes)
      invariant Ran(plan, old(st.table), moves, ws, st.table)
      decreases if ws.cancelled then 0 else 1, Left(ws.stages)
    {
      var cancel: bool := *;
      if cancel && !ws.cancelled {
        RanOneMore(plan, old(st.table), moves, ws, st.table, Cancel);
        CancelKeepsInv(plan, ws);
        ws := ws.(cancelled := true);
        moves := moves + [Cancel];
        continue;
      }
      ghost var someone := SomeoneCanStep(plan, ws);
      var w: nat :| w < |ws.stages| && CanStep(plan, ws, w);
      var r: Reading := *;
      RanOneMore(plan, old(st.table), moves, ws, st.table, Work(w, r));
      StepUsesOne(ws.stages, w);
      StepInv(plan, ws, w);
      KnownStaysKnown(plan, ws, outcomes, w);
      if ws.stages[w] == WAITING {
        label select: {
          if ws.cancelled {
            break select;
          }
        }
      }
      var outcome := if w in outcomes then outcomes[w] else Failed;
      if ws.stages[w] == JUDGED {
        outcome := RecordVerdict(st, plan.kind, plan.jobs[w], plan.answers[w], r);
        outcomes := outcomes[w := outcome];
      }
      ws := StepBy(plan, ws, w, outcome);
      moves := moves + [Work(w, r)];
    }
    NobodyIsWaitedFor(plan, ws);
  }

  /** The outcomes of the workers whose statement was executed. */
  ghost predicate Known(plan: Plan, ws: Workers, outcomes: map<nat, Outcome>)
    requires plan.Valid() && |ws.stages| == |plan.jobs|
  {
    forall i: nat :: i < |ws.stages| && ws.stages[i] >= RECORDED ==>
      i in outcomes && outcomes[i] == OutcomeOf(plan.kind, plan.jobs[i], plan.answers[i])
  }

  lemma {:induction false} KnownStaysKnown(plan: Plan, ws: Workers, outcomes: map<nat, Outcome>, w: nat)
    requires plan.Valid() && |ws.stages| == |plan.jobs| && CanStep(plan, ws, w) && Known(plan, ws, outcomes)
    ensures var o := OutcomeOf(plan.kind, plan.jobs[w], plan.answers[w]);
            && (ws.stages[w] >= RECORDED ==> w in outcomes && outcomes[w] == o)
            && (ws.stages[w] != JUDGED ==> Known(plan, StepWorkers(plan, ws, w), outcomes))
            && Known(plan, StepWorkers(plan, ws, w), outcomes[w := o])
            && (ws.stages[w] < RECORDED ==> forall o' :: StepBy(plan, ws, w, o') == StepWorkers(plan, ws, w))
  {
    hide OutcomeOf;
  }

  lemma {:induction false} CancelKeepsInv(plan: Plan, ws: Workers)
    requires plan.Valid() && Inv(plan, ws)
    ensures Inv(plan, ws.(cancelled := true))
  {
  }

  lemma {:induction false} RanNothing(plan: Plan, t: Table)
    requires plan.Valid()
    ensures Ran(plan, t, [], InitWorkers(|plan.jobs|), t)
  {
  }

  lemma {:induction false} NobodyIsWaitedFor(plan: Plan, ws: Workers)
    requires plan.Valid() && Inv(plan, ws) && Finished(ws)
    ensures ws.wg == 0
  {
  }

  /** The worker's statement and what it comes to: report a proxy that passed; when retesting, delete
      one that failed. */
  method RecordVerdict(st: Store, kind: Kind, job: Job, a: Answer, r: Reading) returns (outcome: Outcome)
    modifies st
    ensures st.table == Apply(old(st.table), Statement(kind, job, a, r))
    ensures outcome == OutcomeOf(kind, job, a)
  {
    var ok := true;
    if a.passed {
      ok := st.UpsertUsableProxy(Report(job.key, job.country, r.testedAt, a.latency, r.now), r.skip, a.storeFault);
    } else if kind.Retest? {
      ok := st.DeleteProxyByID(job.id, a.storeFault);
    }
    outcome := if !ok then StoreError else if a.passed then Stored else Failed;
  }
}
