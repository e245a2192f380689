/** Retesting the whole pool: rows that pass are refreshed in place, rows that fail are removed,
    and the schedule of the workers does not matter. */
module Retesting {
  import opened Text
  import opened ProxyTable
  import opened ProxyStore
  import opened WorkerPool

  /** How a row's test and statement go, and what is read when the statement is made. */
  datatype Verdict = Verdict(answer: Answer, reading: Reading)

  /** What should become of one row: it is left alone, refreshed or removed. */
  function After(row: Row, v: Verdict): seq<Row> {
    if v.answer.storeFault then [row]
    else if v.answer.passed then
      [row.(lastTestAt := v.reading.testedAt, latencyMs := Millis(v.answer.latency), updatedAt := v.reading.now)]
    else []
  }

  /** The result a sequential pass over the pool would leave: same order, ids and creation times. */
  function Retested(rows: seq<Row>, vs: seq<Verdict>): seq<Row>
    requires |rows| == |vs|
  {
    if rows == [] then [] else After(rows[0], vs[0]) + Retested(rows[1..], vs[1..])
  }

  function Verdicts(answers: seq<Answer>, readings: seq<Reading>): (vs: seq<Verdict>)
    requires |answers| == |readings|
    ensures |vs| == |answers| && forall i :: 0 <= i < |vs| ==> vs[i] == Verdict(answers[i], readings[i])
  {
    seq(|answers|, i requires 0 <= i < |answers| => Verdict(answers[i], readings[i]))
  }

  function PlanFor(rows: seq<Row>, answers: seq<Answer>, limit: nat): Plan {
    Plan(Retest, seq(|rows|, i requires 0 <= i < |rows| => Job(rows[i].id, rows[i].key, rows[i].country)),
         answers, limit)
  }

  /** The pool when the workers marked in `settled` have executed their statement. */
  function Partly(rows: seq<Row>, vs: seq<Verdict>, settled: seq<bool>): seq<Row>
    requires |rows| == |vs| == |settled|
  {
    if rows == [] then []
    else (if settled[0] then After(rows[0], vs[0]) else [rows[0]]) + Partly(rows[1..], vs[1..], settled[1..])
  }

  function Settled(stages: seq<Stage>): seq<bool> {
    seq(|stages|, i requires 0 <= i < |stages| => stages[i] >= RECORDED)
  }

  // ----- one statement settles one row -----

  lemma {:induction false} PartlyFrom(rows: seq<Row>, vs: seq<Verdict>, settled: seq<bool>, k: nat) returns (i: nat)
    requires |rows| == |vs| == |settled| && k < |Partly(rows, vs, settled)|
    ensures i < |rows| && Partly(rows, vs, settled)[k].id == rows[i].id
    ensures Partly(rows, vs, settled)[k].key == rows[i].key
  {
    var head := if settled[0] then After(rows[0], vs[0]) else [rows[0]];
    if k < |head| {
      i := 0;
    } else {
      i := PartlyFrom(rows[1..], vs[1..], settled[1..], k - |head|);
      i := i + 1;
    }
  }

  /** The pool around row `w` while it is not settled, and what settling it changes. */
  lemma {:induction false} PartlyAround(rows: seq<Row>, vs: seq<Verdict>, settled: seq<bool>, w: nat)
      returns (left: seq<Row>, right: seq<Row>)
    requires |rows| == |vs| == |settled| && w < |rows| && !settled[w]
    requires DistinctKeys(rows) && SortedById(rows)
    ensures Partly(rows, vs, settled) == left + [rows[w]] + right
    ensures Partly(rows, vs, settled[w := true]) == left + After(rows[w], vs[w]) + right
    ensures forall k :: 0 <= k < |left| ==> left[k].id != rows[w].id && left[k].key != rows[w].key
    ensures forall k :: 0 <= k < |right| ==> right[k].id != rows[w].id && right[k].key != rows[w].key
  {
    left := Partly(rows[..w], vs[..w], settled[..w]);
    right := Partly(rows[w + 1..], vs[w + 1..], settled[w + 1..]);
    PartlySplits(rows, vs, settled, w);
    PartlySplits(rows, vs, settled[w := true], w);
    assert settled[w := true][..w] == settled[..w] && settled[w := true][w + 1..] == settled[w + 1..];
    forall k | 0 <= k < |left| ensures left[k].id != rows[w].id && left[k].key != rows[w].key {
      var i := PartlyFrom(rows[..w], vs[..w], settled[..w], k);
      assert rows[..w][i] == rows[i];
    }
    forall k | 0 <= k < |right| ensures right[k].id != rows[w].id && right[k].key != rows[w].key {
      var i := PartlyFrom(rows[w + 1..], vs[w + 1..], settled[w + 1..], k);
      assert rows[w + 1..][i] == rows[w + 1 + i];
    }
  }

  lemma {:induction false} PartlySplits(rows: seq<Row>, vs: seq<Verdict>, settled: seq<bool>, w: nat)
    requires |rows| == |vs| == |settled| && w < |rows|
    ensures Partly(rows, vs, settled)
         == Partly(rows[..w], vs[..w], settled[..w])
            + (if settled[w] then After(rows[w], vs[w]) else [rows[w]])
            + Partly(rows[w + 1..], vs[w + 1..], settled[w + 1..])
    decreases w
  {
    hide After;
    if w > 0 {
      PartlySplits(rows[1..], vs[1..], settled[1..], w - 1);
      assert rows[1..][..w - 1] == rows[..w][1..] && rows[1..][w..] == rows[w + 1..];
      assert vs[1..][..w - 1] == vs[..w][1..] && vs[1..][w..] == vs[w + 1..];
      assert settled[1..][..w - 1] == settled[..w][1..] && settled[1..][w..] == settled[w + 1..];
    }
  }

  function ReportFor(row: Row, v: Verdict): Report {
    Report(row.key, row.country, v.reading.testedAt, v.answer.latency, v.reading.now)
  }

  lemma {:induction false} RefreshSettles(rows: seq<Row>, vs: seq<Verdict>, settled: seq<bool>, w: nat)
    requires |rows| == |vs| == |settled| && w < |rows| && !settled[w]
    requires DistinctKeys(rows) && SortedById(rows)
    requires vs[w].answer.passed && !vs[w].answer.storeFault
    ensures Refresh(Partly(rows, vs, settled), ReportFor(rows[w], vs[w])) == Partly(rows, vs, settled[w := true])
    ensures HasKey(Partly(rows, vs, settled), rows[w].key)
  {
    hide Partly, Refresh, After, DistinctKeys, SortedById;
    var left, right := PartlyAround(rows, vs, settled, w);
    RefreshAmong(left, rows[w], right, vs[w]);
    assert Partly(rows, vs, settled)[|left|] == rows[w];
  }

  lemma {:induction false} RefreshAmong(left: seq<Row>, row: Row, right: seq<Row>, v: Verdict)
    requires v.answer.passed && !v.answer.storeFault
    requires forall k :: 0 <= k < |left| ==> left[k].key != row.key
    requires forall k :: 0 <= k < |right| ==> right[k].key != row.key
    ensures Refresh(left + [row] + right, ReportFor(row, v)) == left + After(row, v) + right
  {
    var r := ReportFor(row, v);
    RefreshConcat(left + [row], right, r);
    RefreshConcat(left, [row], r);
    RefreshMisses(left, r);
    RefreshMisses(right, r);
    RefreshAt([row], r, 0);
    assert Refresh([row], r) == After(row, v);
  }

  lemma {:induction false} DeleteSettles(rows: seq<Row>, vs: seq<Verdict>, settled: seq<bool>, w: nat)
    requires |rows| == |vs| == |settled| && w < |rows| && !settled[w]
    requires DistinctKeys(rows) && SortedById(rows)
    requires !vs[w].answer.passed && !vs[w].answer.storeFault
    ensures Without(Partly(rows, vs, settled), {rows[w].id}) == Partly(rows, vs, settled[w := true])
  {
    hide Partly;
    var left, right := PartlyAround(rows, vs, settled, w);
    var gone := {rows[w].id};
    WithoutConcat(left + [rows[w]], right, gone);
    WithoutConcat(left, [rows[w]], gone);
    WithoutMisses(left, gone);
    WithoutMisses(right, gone);
    assert Without([rows[w]], gone) == [];
  }

  lemma {:induction false} FaultSettles(rows: seq<Row>, vs: seq<Verdict>, settled: seq<bool>, w: nat)
    requires |rows| == |vs| == |settled| && w < |rows| && !settled[w] && vs[w].answer.storeFault
    requires DistinctKeys(rows) && SortedById(rows)
    ensures Partly(rows, vs, settled[w := true]) == Partly(rows, vs, settled)
  {
    var left, right := PartlyAround(rows, vs, settled, w);
  }

  // ----- what a schedule reads -----

  /** `readings` has what each worker of the schedule reads for its statement. */
  ghost predicate Fits(plan: Plan, p: Pool, moves: seq<Move>, readings: seq<Reading>)
    requires plan.Valid() && |p.workers.stages| == |plan.jobs| == |readings| && Legal(plan, p, moves)
    decreases moves
  {
    moves == [] ||
    ((moves[0].Work? && p.workers.stages[moves[0].w] == JUDGED ==> readings[moves[0].w] == moves[0].reading) &&
     Fits(plan, Do(plan, p, moves[0]), moves[1..], readings))
  }

  /** The readings of a schedule, worker by worker. */
  ghost function Readings(plan: Plan, p: Pool, moves: seq<Move>): (r: seq<Reading>)
    requires plan.Valid() && |p.workers.stages| == |plan.jobs| && Legal(plan, p, moves)
    ensures |r| == |plan.jobs|
    decreases moves
  {
    if moves == [] then seq(|plan.jobs|, _ => Reading(0, 0, 0))
    else
      var later := Readings(plan, Do(plan, p, moves[0]), moves[1..]);
      if moves[0].Work? && p.workers.stages[moves[0].w] == JUDGED then later[moves[0].w := moves[0].reading] else later
  }

  lemma {:induction false} SettledReadsNoMore(plan: Plan, p: Pool, moves: seq<Move>,
                                              readings: seq<Reading>, w: nat, r: Reading)
    requires plan.Valid() && |p.workers.stages| == |plan.jobs| == |readings| && Legal(plan, p, moves)
    requires w < |readings| && p.workers.stages[w] >= RECORDED && Fits(plan, p, moves, readings)
    ensures Fits(plan, p, moves, readings[w := r])
    decreases moves
  {
    hide StepTable;
    if moves != [] {
      SettledReadsNoMore(plan, Do(plan, p, moves[0]), moves[1..], readings, w, r);
    }
  }

  lemma {:induction false} ReadingsFit(plan: Plan, p: Pool, moves: seq<Move>)
    requires plan.Valid() && |p.workers.stages| == |plan.jobs| && Legal(plan, p, moves)
    ensures Fits(plan, p, moves, Readings(plan, p, moves))
    decreases moves
  {
    hide StepTable;
    if moves != [] {
      var q := Do(plan, p, moves[0]);
      ReadingsFit(plan, q, moves[1..]);
      if moves[0].Work? && p.workers.stages[moves[0].w] == JUDGED {
        SettledReadsNoMore(plan, q, moves[1..], Readings(plan, q, moves[1..]), moves[0].w, moves[0].reading);
      }
    }
  }

  // ----- every schedule -----

  ghost predicate Tracks(rows: seq<Row>, vs: seq<Verdict>, p: Pool) {
    && |rows| == |vs| == |p.workers.stages|
    && p.table.rows == Partly(rows, vs, Settled(p.workers.stages))
  }

  lemma {:induction false} StepTracks(t: Table, answers: seq<Answer>, readings: seq<Reading>,
                                      limit: nat, p: Pool, w: nat, r: Reading)
    requires Valid(t) && |t.rows| == |answers| == |readings| && limit >= 1
    requires Tracks(t.rows, Verdicts(answers, readings), p)
    requires CanStep(PlanFor(t.rows, answers, limit), p.workers, w)
    requires p.workers.stages[w] == JUDGED ==> readings[w] == r
    ensures Tracks(t.rows, Verdicts(answers, readings), Do(PlanFor(t.rows, answers, limit), p, Work(w, r)))
  {
    var plan := PlanFor(t.rows, answers, limit);
    var q := Do(plan, p, Work(w, r));
    var before, after := Settled(p.workers.stages), Settled(q.workers.stages);
    if p.workers.stages[w] == JUDGED {
      assert after == before[w := true];
      StatementSettles(t, Verdicts(answers, readings), before, w, p.table);
    } else {
      assert after == before;
    }
  }

  lemma {:induction false} StatementSettles(t: Table, vs: seq<Verdict>, settled: seq<bool>, w: nat, u: Table)
    requires Valid(t) && |t.rows| == |vs| == |settled| && w < |settled| && !settled[w]
    requires u.rows == Partly(t.rows, vs, settled)
    ensures var row := t.rows[w];
            Apply(u, Statement(Retest, Job(row.id, row.key, row.country), vs[w].answer, vs[w].reading)).rows
              == Partly(t.rows, vs, settled[w := true])
  {
    hide Partly;
    var a, row := vs[w].answer, t.rows[w];
    if a.storeFault {
      FaultSettles(t.rows, vs, settled, w);
    } else if a.passed {
      RefreshSettles(t.rows, vs, settled, w);
    } else {
      DeleteSettles(t.rows, vs, settled, w);
    }
  }

  lemma {:induction false} PlayTracks(t: Table, answers: seq<Answer>, readings: seq<Reading>,
                                      limit: nat, p: Pool, moves: seq<Move>)
    requires Valid(t) && |t.rows| == |answers| == |readings| && limit >= 1
    requires Tracks(t.rows, Verdicts(answers, readings), p)
    requires Legal(PlanFor(t.rows, answers, limit), p, moves) && Alone(moves)
    requires Fits(PlanFor(t.rows, answers, limit), p, moves, readings)
    ensures Tracks(t.rows, Verdicts(answers, readings), Play(PlanFor(t.rows, answers, limit), p, moves))
    decreases moves
  {
    if moves != [] {
      if moves[0].Work? {
        StepTracks(t, answers, readings, limit, p, moves[0].w, moves[0].reading);
      }
      PlayTracks(t, answers, readings, limit, Do(PlanFor(t.rows, answers, limit), p, moves[0]), moves[1..]);
    }
  }

  lemma {:induction false} PartlyExtremes(rows: seq<Row>, vs: seq<Verdict>, settled: seq<bool>)
    requires |rows| == |vs| == |settled|
    ensures (forall i :: 0 <= i < |settled| ==> !settled[i]) ==> Partly(rows, vs, settled) == rows
    ensures (forall i :: 0 <= i < |settled| ==> settled[i]) ==> Partly(rows, vs, settled) == Retested(rows, vs)
  {
    hide After;
    if rows != [] {
      PartlyExtremes(rows[1..], vs[1..], settled[1..]);
    }
  }

  /** Confluence: for every schedule, limit, cancellation and assignment of verdicts and store errors,
      and with no other writer, the finished retest leaves exactly what a sequential pass with the same
      verdicts and readings would. */
  lemma {:induction false} RetestConfluent(t: Table, answers: seq<Answer>, limit: nat, moves: seq<Move>)
    requires Valid(t) && |t.rows| == |answers| && limit >= 1
    requires Legal(PlanFor(t.rows, answers, limit), Pool(InitWorkers(|t.rows|), t), moves) && Alone(moves)
    requires Finished(Play(PlanFor(t.rows, answers, limit), Pool(InitWorkers(|t.rows|), t), moves).workers)
    ensures var plan, p := PlanFor(t.rows, answers, limit), Pool(InitWorkers(|t.rows|), t);
            Play(plan, p, moves).table.rows == Retested(t.rows, Verdicts(answers, Readings(plan, p, moves)))
  {
    hide Partly, Retested, Play, Legal, Readings, Fits;
    var plan, p := PlanFor(t.rows, answers, limit), Pool(InitWorkers(|t.rows|), t);
    var readings := Readings(plan, p, moves);
    ReadingsFit(plan, p, moves);
    PartlyExtremes(t.rows, Verdicts(answers, readings), Settled(p.workers.stages));
    PlayTracks(t, answers, readings, limit, p, moves);
    PartlyExtremes(t.rows, Verdicts(answers, readings), Settled(Play(plan, p, moves).workers.stages));
  }

  /** Exactly what becomes of each row is in the result; so a row whose statement failed is there
      untouched, times included. */
  lemma {:induction false} RetestedIsExact(rows: seq<Row>, vs: seq<Verdict>)
    requires |rows| == |vs|
    ensures forall r :: r in Retested(rows, vs) <==> exists w :: 0 <= w < |rows| && r in After(rows[w], vs[w])
    ensures forall w :: 0 <= w < |rows| && vs[w].answer.storeFault ==> rows[w] in Retested(rows, vs)
  {
    if rows != [] {
      hide After;
      RetestedIsExact(rows[1..], vs[1..]);
      forall r ensures r in Retested(rows, vs) <==> exists w :: 0 <= w < |rows| && r in After(rows[w], vs[w]) {
        if r in Retested(rows[1..], vs[1..]) {
          var w :| 0 <= w < |rows[1..]| && r in After(rows[1..][w], vs[1..][w]);
          assert r in After(rows[w + 1], vs[w + 1]);
        } else if w :| 0 <= w < |rows| && r in After(rows[w], vs[w]) {
          assert w > 0 ==> r in After(rows[1..][w - 1], vs[1..][w - 1]);
        }
      }
    }
    FaultLeavesRow(rows, vs);
  }

  lemma {:induction false} FaultLeavesRow(rows: seq<Row>, vs: seq<Verdict>)
    requires |rows| == |vs|
    ensures forall w :: 0 <= w < |rows| && vs[w].answer.storeFault ==> rows[w] in After(rows[w], vs[w])
  {
  }

  /** Rows without the times that depend on when each worker ran. */
  function Timeless(rows: seq<Row>): (r: seq<Row>)
    ensures |r| == |rows|
    ensures forall i :: 0 <= i < |rows| ==> r[i] == rows[i].(lastTestAt := 0, updatedAt := 0)
  {
    seq(|rows|, i requires 0 <= i < |rows| => rows[i].(lastTestAt := 0, updatedAt := 0))
  }

  /** So two schedules with the same verdicts differ at most in the times of rows that passed. */
  lemma {:induction false} OnlyTimesDiffer(rows: seq<Row>, answers: seq<Answer>, r: seq<Reading>, r': seq<Reading>)
    requires |rows| == |answers| == |r| == |r'|
    ensures Timeless(Retested(rows, Verdicts(answers, r))) == Timeless(Retested(rows, Verdicts(answers, r')))
  {
    if rows != [] {
      var v, v' := Verdicts(answers, r), Verdicts(answers, r');
      assert v[1..] == Verdicts(answers[1..], r[1..]) && v'[1..] == Verdicts(answers[1..], r'[1..]);
      OnlyTimesDiffer(rows[1..], answers[1..], r[1..], r'[1..]);
      TimelessConcat(After(rows[0], v[0]), Retested(rows[1..], v[1..]));
      TimelessConcat(After(rows[0], v'[0]), Retested(rows[1..], v'[1..]));
      assert Timeless(After(rows[0], v[0])) == Timeless(After(rows[0], v'[0]));
    }
  }

  lemma {:induction false} TimelessConcat(a: seq<Row>, b: seq<Row>)
    ensures Timeless(a + b) == Timeless(a) + Timeless(b)
  {
  }

  // ----- the operation -----

  datatype RetestResult = RetestResult(total: nat, tested: nat, updated: nat, removed: nat, errors: nat,
                                       samples: seq<nat>)

  /** The row after a retest in which its test passed and its report was stored. */
  ghost predicate RefreshedTo(r: Row, r': Row, latency: int) {
    r' == r.(lastTestAt := r'.lastTestAt, latencyMs := Millis(latency), updatedAt := r'.updatedAt)
  }

  /** Retests every listed row with at most `concurrency` tests at a time. `answer` is what testing
      and storing each row will yield. A row that passes is refreshed, one that fails is gone, one
      whose statement fails is untouched, and nothing else is in the pool. */
  method RetestOnce(st: Store, concurrency: int, answer: Row -> Answer, listFault: bool)
      returns (ok: bool, result: RetestResult, ghost readings: seq<Reading>, ghost moves: seq<Move>)
    requires Valid(st.table)
    modifies st
    ensures ok <==> !listFault
    ensures !ok ==> st.table == old(st.table) && result.total == 0
    ensures |readings| == |old(st.table).rows|
    ensures ok ==> st.table.rows == Retested(old(st.table).rows, Verdicts(Answers(old(st.table).rows, answer), readings))
    ensures ok ==> forall r :: r in old(st.table).rows ==>
              && (answer(r).storeFault ==> r in st.table.rows)
              && (!answer(r).storeFault && answer(r).passed ==>
                    exists r' :: r' in st.table.rows && RefreshedTo(r, r', answer(r).latency))
              && (!answer(r).storeFault && !answer(r).passed ==> r.id !in Ids(st.table.rows))
    ensures ok ==> Ids(st.table.rows) <= Ids(old(st.table).rows)
    ensures ok ==> Valid(st.table) && Follows(old(st.table), st.table)
    ensures ok ==> result.total == result.tested == |old(st.table).rows|
    ensures ok ==> result.updated == |set r | r in old(st.table).rows && answer(r).passed && !answer(r).storeFault|
    ensures ok ==> result.removed == |set r | r in old(st.table).rows && !answer(r).passed && !answer(r).storeFault|
    ensures ok ==> result.errors == |set r | r in old(st.table).rows && answer(r).storeFault|
    ensures ok ==> result.total == result.updated + result.removed + result.errors
    ensures ok ==> |st.table.rows| == result.total - result.removed
    ensures |result.samples| == if result.total - result.updated < 5 then result.total - result.updated else 5
    ensures forall i, j :: 0 <= i < j < |result.samples| ==> result.samples[i] != result.samples[j]
    ensures forall w: nat :: w in result.samples ==>
              w < |old(st.table).rows|
              && (!answer(old(st.table).rows[w]).passed || answer(old(st.table).rows[w]).storeFault)
    ensures ok ==>
              var limit: nat := if concurrency < 1 then 1 else concurrency;
              var plan := PlanFor(old(st.table).rows, Answers(old(st.table).rows, answer), limit);
              NeverMoreThan(plan, old(st.table), moves, if concurrency < 1 then 1 else concurrency)
              && Play(plan, Pool(InitWorkers(|plan.jobs|), old(st.table)), moves[..|moves|]).table == st.table
  {
    hide Follows, Inv, Valid, Legal, Play, Retested, Readings, NeverMoreThan, With, RefreshedTo,
         SamplesOf;
    var limit: nat := if concurrency < 1 then 1 else concurrency;
    var list;
    ok, list := st.ListProxies(listFault);
    ghost var before := st.table;
    readings, moves := seq(|before.rows|, _ => Reading(0, 0, 0)), [];
    if !ok {
      return false, RetestResult(0, 0, 0, 0, 0, []), readings, moves;
    }
    if |list| == 0 {
      NothingToRetest(before, limit, answer);
      return ok, RetestResult(0, 0, 0, 0, 0, []), readings, moves;
    }
    var answers := Answers(list, answer);
    var plan := PlanFor(list, answers, limit);
    var ws;
    ws, moves := RunPool(st, plan);
    readings := Readings(plan, Pool(InitWorkers(|list|), before), moves);
    assert moves[..|moves|] == moves;
    LimitIsKept(plan, before, moves);
    RetestConfluent(before, answers, limit, moves);
    BecomesOfEach(before, answers, readings, answer);
    AccountsBalance(plan, ws);
    CountOutcomes(before, answers, limit, answer);
    SampledRows(before, limit, answer, ws.tally.samples);
    PlayKeepsValid(plan, Pool(InitWorkers(|list|), before), moves);
    RetestedSize(before, answers, readings, limit);
    result := RetestResult(|list|, ws.tally.tested, ws.tally.stored, ws.tally.failed, ws.tally.errors, ws.tally.samples);
  }

  lemma {:induction false} SampledRows(t: Table, limit: nat, answer: Row -> Answer, samples: seq<nat>)
    requires Valid(t) && limit >= 1
    requires SamplesOf(samples, Unhappy(PlanFor(t.rows, Answers(t.rows, answer), limit)))
    ensures forall i, j :: 0 <= i < j < |samples| ==> samples[i] != samples[j]
    ensures forall w: nat :: w in samples ==>
              w < |t.rows| && (!answer(t.rows[w]).passed || answer(t.rows[w]).storeFault)
  {
    hide OutcomeOf;
    var plan := PlanFor(t.rows, Answers(t.rows, answer), limit);
    forall i | 0 <= i < |samples|
      ensures samples[i] < |t.rows|
              && (!answer(t.rows[samples[i]]).passed || answer(t.rows[samples[i]]).storeFault)
    {
      var w := samples[i];
      assert w in Unhappy(plan);
      OutcomesAre(Retest, plan.jobs[w], plan.answers[w]);
    }
  }

  /** What becomes of each row of the pool, and that nothing else is there. */
  lemma {:induction false} BecomesOfEach(t: Table, answers: seq<Answer>, readings: seq<Reading>, answer: Row -> Answer)
    requires Valid(t) && |t.rows| == |readings| && answers == Answers(t.rows, answer)
    ensures var left := Retested(t.rows, Verdicts(answers, readings));
            && (forall r :: r in t.rows ==>
                  && (answer(r).storeFault ==> r in left)
                  && (!answer(r).storeFault && answer(r).passed ==>
                        exists r' :: r' in left && RefreshedTo(r, r', answer(r).latency))
                  && (!answer(r).storeFault && !answer(r).passed ==> r.id !in Ids(left)))
            && Ids(left) <= Ids(t.rows)
  {
    hide Retested;
    var vs := Verdicts(answers, readings);
    var left := Retested(t.rows, vs);
    RetestedIsExact(t.rows, vs);
    forall r | r in t.rows
      ensures answer(r).storeFault ==> r in left
      ensures !answer(r).storeFault && answer(r).passed ==>
                exists r' :: r' in left && RefreshedTo(r, r', answer(r).latency)
      ensures !answer(r).storeFault && !answer(r).passed ==> r.id !in Ids(left)
    {
      var w :| 0 <= w < |t.rows| && t.rows[w] == r;
      if !answer(r).storeFault && answer(r).passed {
        var r' := After(r, vs[w])[0];
        assert r' in After(t.rows[w], vs[w]) && RefreshedTo(r, r', answer(r).latency);
      }
      forall k | 0 <= k < |left| && left[k].id == r.id ensures left[k] in After(r, vs[w]) {
        var v := Ancestor(t.rows, vs, left, k);
      }
    }
    forall k | 0 <= k < |left| ensures left[k].id in Ids(t.rows) {
      var v := Ancestor(t.rows, vs, left, k);
    }
  }

  lemma {:induction false} Ancestor(rows: seq<Row>, vs: seq<Verdict>, left: seq<Row>, k: nat) returns (w: nat)
    requires |rows| == |vs| && left == Retested(rows, vs) && k < |left|
    ensures w < |rows| && left[k] in After(rows[w], vs[w]) && left[k].id == rows[w].id
  {
    hide Retested;
    RetestedIsExact(rows, vs);
    assert left[k] in left;
    w :| 0 <= w < |rows| && left[k] in After(rows[w], vs[w]);
  }

  ghost function RowsWhere(rows: seq<Row>, f: Row -> bool): set<Row> {
    set r | r in rows && f(r)
  }

  ghost function PlacesWhere(rows: seq<Row>, f: Row -> bool, n: nat): set<nat>
    requires n <= |rows|
  {
    set i: nat | i < n && f(rows[i])
  }

  /** The workers' outcomes, counted by the rows they belong to. */
  lemma {:induction false} CountOutcomes(t: Table, answers: seq<Answer>, limit: nat, answer: Row -> Answer)
    requires Valid(t) && limit >= 1 && answers == Answers(t.rows, answer)
    ensures var plan := PlanFor(t.rows, answers, limit);
            && |With(plan, Stored)| == |set r | r in t.rows && answer(r).passed && !answer(r).storeFault|
            && |With(plan, Failed)| == |set r | r in t.rows && !answer(r).passed && !answer(r).storeFault|
            && |With(plan, StoreError)| == |set r | r in t.rows && answer(r).storeFault|
  {
    hide OutcomeOf, SortedById, With, RowsWhere;
    var plan := PlanFor(t.rows, answers, limit);
    forall i | 0 <= i < |t.rows|
      ensures OutcomeOf(Retest, plan.jobs[i], plan.answers[i])
           == if answer(t.rows[i]).storeFault then StoreError else if answer(t.rows[i]).passed then Stored else Failed
    {
      OutcomesAre(Retest, plan.jobs[i], plan.answers[i]);
    }
    var stored, failed, errors := r => answer(r).passed && !answer(r).storeFault,
                                  r => !answer(r).passed && !answer(r).storeFault, r => answer(r).storeFault;
    WithIsWhere(plan, t.rows, Stored, stored);
    WithIsWhere(plan, t.rows, Failed, failed);
    WithIsWhere(plan, t.rows, StoreError, errors);
    WhereIs(t.rows, answer);
  }

  lemma {:induction false} WhereIs(rows: seq<Row>, answer: Row -> Answer)
    ensures RowsWhere(rows, r => answer(r).passed && !answer(r).storeFault)
         == set r | r in rows && answer(r).passed && !answer(r).storeFault
    ensures RowsWhere(rows, r => !answer(r).passed && !answer(r).storeFault)
         == set r | r in rows && !answer(r).passed && !answer(r).storeFault
    ensures RowsWhere(rows, r => answer(r).storeFault) == set r | r in rows && answer(r).storeFault
  {
  }

  lemma {:induction false} WithIsWhere(plan: Plan, rows: seq<Row>, o: Outcome, f: Row -> bool)
    requires plan.Valid() && plan.kind == Retest && |rows| == |plan.jobs| && SortedById(rows)
    requires forall i :: 0 <= i < |rows| ==>
               (f(rows[i]) <==> OutcomeOf(Retest, plan.jobs[i], plan.answers[i]) == o)
    ensures |With(plan, o)| == |RowsWhere(rows, f)|
  {
    hide OutcomeOf;
    assert With(plan, o) == PlacesWhere(rows, f, |rows|);
    CountRows(rows, f, |rows|);
    assert rows[..|rows|] == rows;
  }

  lemma {:induction false} CountRows(rows: seq<Row>, f: Row -> bool, n: nat)
    requires SortedById(rows) && n <= |rows|
    ensures |PlacesWhere(rows, f, n)| == |RowsWhere(rows[..n], f)|
  {
    if n == 0 {
      assert PlacesWhere(rows, f, 0) == {} && RowsWhere(rows[..0], f) == {};
    } else {
      hide PlacesWhere, RowsWhere;
      CountRows(rows, f, n - 1);
      NextPlace(rows, f, n - 1);
      NextRow(rows, f, n - 1);
    }
  }

  lemma {:induction false} NextPlace(rows: seq<Row>, f: Row -> bool, n: nat)
    requires n < |rows|
    ensures |PlacesWhere(rows, f, n + 1)| == |PlacesWhere(rows, f, n)| + if f(rows[n]) then 1 else 0
  {
    assert PlacesWhere(rows, f, n + 1) == PlacesWhere(rows, f, n) + if f(rows[n]) then {n} else {};
  }

  lemma {:induction false} NextRow(rows: seq<Row>, f: Row -> bool, n: nat)
    requires SortedById(rows) && n < |rows|
    ensures |RowsWhere(rows[..n + 1], f)| == |RowsWhere(rows[..n], f)| + if f(rows[n]) then 1 else 0
  {
    assert rows[..n + 1] == rows[..n] + [rows[n]];
    assert rows[n] !in rows[..n];
    assert RowsWhere(rows[..n + 1], f) == RowsWhere(rows[..n], f) + if f(rows[n]) then {rows[n]} else {};
  }

  lemma {:induction false} NothingToRetest(t: Table, limit: nat, answer: Row -> Answer)
    requires Valid(t) && t.rows == [] && limit >= 1
    ensures Follows(t, t) && Retested([], []) == []
    ensures var plan := PlanFor(t.rows, Answers(t.rows, answer), limit);
            NeverMoreThan(plan, t, [], limit) && Play(plan, Pool(InitWorkers(|plan.jobs|), t), []).table == t
    ensures (set r | r in t.rows && answer(r).passed && !answer(r).storeFault) == {}
    ensures (set r | r in t.rows && !answer(r).passed && !answer(r).storeFault) == {}
    ensures (set r | r in t.rows && answer(r).storeFault) == {}
  {
    FollowsRefl(t);
    LimitIsKept(PlanFor(t.rows, Answers(t.rows, answer), limit), t, []);
  }

  function Answers(rows: seq<Row>, answer: Row -> Answer): (r: seq<Answer>)
    ensures |r| == |rows| && forall i :: 0 <= i < |rows| ==> r[i] == answer(rows[i])
  {
    seq(|rows|, i requires 0 <= i < |rows| => answer(rows[i]))
  }

  /** The first `n` rows that are removed. */
  ghost function Removed(answers: seq<Answer>, n: nat): set<nat>
    requires n <= |answers|
  {
    set i: nat | i < n && !answers[i].passed && !answers[i].storeFault
  }

  /** A retest removes as many rows as it counts as removed. */
  lemma {:induction false} RetestedSize(t: Table, answers: seq<Answer>, readings: seq<Reading>, limit: nat)
    requires Valid(t) && |t.rows| == |answers| == |readings| && limit >= 1
    ensures |Retested(t.rows, Verdicts(answers, readings))|
         == |t.rows| - |With(PlanFor(t.rows, answers, limit), Failed)|
  {
    var rows := t.rows;
    var vs := Verdicts(answers, readings);
    SizeOf(rows, answers, vs, |rows|);
    assert rows[..|rows|] == rows && vs[..|vs|] == vs;
    assert Removed(answers, |rows|) == With(PlanFor(rows, answers, limit), Failed);
  }

  lemma {:induction false} SizeOf(rows: seq<Row>, answers: seq<Answer>, vs: seq<Verdict>, n: nat)
    requires |rows| == |answers| == |vs| && n <= |rows|
    requires forall i :: 0 <= i < |vs| ==> vs[i].answer == answers[i]
    ensures |Retested(rows[..n], vs[..n])| == n - |Removed(answers, n)|
  {
    if n == 0 {
      assert Removed(answers, 0) == {};
    } else {
      SizeOf(rows, answers, vs, n - 1);
      RetestedSnoc(rows[..n - 1], vs[..n - 1], rows[n - 1], vs[n - 1]);
      assert rows[..n] == rows[..n - 1] + [rows[n - 1]] && vs[..n] == vs[..n - 1] + [vs[n - 1]];
      RemovedNext(answers, n - 1);
    }
  }

  lemma {:induction false} RemovedNext(answers: seq<Answer>, n: nat)
    requires n < |answers|
    ensures |Removed(answers, n + 1)|
         == |Removed(answers, n)| + if !answers[n].passed && !answers[n].storeFault then 1 else 0
  {
    assert Removed(answers, n + 1)
        == Removed(answers, n) + if !answers[n].passed && !answers[n].storeFault then {n} else {};
  }

  lemma {:induction false} RetestedSnoc(rows: seq<Row>, vs: seq<Verdict>, row: Row, v: Verdict)
    requires |rows| == |vs|
    ensures Retested(rows + [row], vs + [v]) == Retested(rows, vs) + After(row, v)
  {
    hide After;
    if rows == [] {
      assert Retested([row], [v]) == After(row, v) + Retested([row][1..], [v][1..]);
    } else {
      RetestedSnoc(rows[1..], vs[1..], row, v);
      assert (rows + [row])[1..] == rows[1..] + [row] && (vs + [v])[1..] == vs[1..] + [v];
    }
  }
}
