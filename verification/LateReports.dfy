/** A retest that is still testing a row when the row is deleted. Its report brings the address back,
    under a new id. */
module LateReports {
  import opened Text
  import opened ProxyTable
  import opened WorkerPool
  import opened Retesting

  /** Whether the address is in the table; rows that have it were inserted after id `from`. */
  ghost predicate Standing(u: Table, key: Key, present: bool, from: int) {
    && Valid(u) && from <= u.lastId
    && (HasKey(u.rows, key) <==> present)
    && forall i :: 0 <= i < |u.rows| && u.rows[i].key == key ==> u.rows[i].id > from
  }

  /** Only a report for the address changes that, as long as deletes name older ids. */
  lemma {:induction false} OpStanding(u: Table, op: Op, key: Key, present: bool, from: int)
    requires Standing(u, key, present, from) && !op.DeleteMany? && (op.DeleteOne? ==> op.id <= from)
    ensures Standing(Apply(u, op), key, present || Reports(op, key), from)
  {
    ApplyKeepsValid(u, op);
    match op
    case Upsert(r, skip) => ReportStanding(u, r, skip, key, present, from);
    case DeleteOne(id) => DeleteStanding(u, id, key, present, from);
    case NoChange =>
  }

  lemma {:induction false} ReportStanding(u: Table, r: Report, skip: nat, key: Key, present: bool, from: int)
    requires Standing(u, key, present, from) && Valid(Apply(u, Upsert(r, skip)))
    ensures Standing(Apply(u, Upsert(r, skip)), key, present || (r.key == key && Complete(key)), from)
  {
    var v := Apply(u, Upsert(r, skip));
    if Complete(r.key) {
      if HasKey(u.rows, r.key) {
        RefreshKeepsIdentity(u.rows, r);
        assert forall i :: 0 <= i < |u.rows| ==> v.rows[i].key == u.rows[i].key && v.rows[i].id == u.rows[i].id;
      } else {
        assert v.rows[|u.rows|].key == r.key;
        assert forall i :: 0 <= i < |u.rows| ==> v.rows[i] == u.rows[i];
      }
    }
  }

  lemma {:induction false} DeleteStanding(u: Table, id: int, key: Key, present: bool, from: int)
    requires Standing(u, key, present, from) && id <= from && Valid(Apply(u, DeleteOne(id)))
    ensures Standing(Apply(u, DeleteOne(id)), key, present, from)
  {
    var v := Apply(u, DeleteOne(id));
    WithoutIsExact(u.rows, {id});
    forall i | 0 <= i < |v.rows| && v.rows[i].key == key ensures v.rows[i].id > from && HasKey(u.rows, key) {
      assert v.rows[i] in v.rows && v.rows[i] in u.rows;
    }
    if i :| 0 <= i < |u.rows| && u.rows[i].key == key {
      assert u.rows[i] in v.rows;
    }
  }

  predicate Passes(a: Answer) {
    a.passed && !a.storeFault
  }

  /** A worker's statement concerns its own row only. */
  lemma {:induction false} OwnRowOnly(t: Table, answers: seq<Answer>, limit: nat, v: nat, r: Reading, w: nat)
    requires Valid(t) && |t.rows| == |answers| && v < |t.rows| && w < |t.rows|
    ensures var op := Statement(Retest, PlanFor(t.rows, answers, limit).jobs[v], answers[v], r);
            && !op.DeleteMany? && (op.DeleteOne? ==> op.id <= t.lastId)
            && (Reports(op, t.rows[w].key) <==> v == w && Passes(answers[w]))
  {
  }

  lemma {:induction false} StepStanding(t: Table, answers: seq<Answer>, limit: nat, p: Pool,
                                        v: nat, r: Reading, w: nat, late: bool, from: int)
    requires Valid(t) && |t.rows| == |answers| == |p.workers.stages| && limit >= 1 && w < |t.rows| && t.lastId <= from
    requires CanStep(PlanFor(t.rows, answers, limit), p.workers, v)
    requires p.workers.stages[w] < RECORDED ==> late == Passes(answers[w])
    requires Standing(p.table, t.rows[w].key, late && p.workers.stages[w] >= RECORDED, from)
    ensures var q := Do(PlanFor(t.rows, answers, limit), p, Work(v, r));
            && Standing(q.table, t.rows[w].key, late && q.workers.stages[w] >= RECORDED, from)
            && (q.workers.stages[w] < RECORDED ==> p.workers.stages[w] < RECORDED)
  {
    hide Standing, Apply, Statement, Valid, Passes;
    var key, plan := t.rows[w].key, PlanFor(t.rows, answers, limit);
    if p.workers.stages[v] == JUDGED {
      var op := Statement(Retest, plan.jobs[v], answers[v], r);
      OwnRowOnly(t, answers, limit, v, r, w);
      OpStanding(p.table, op, key, late && p.workers.stages[w] >= RECORDED, from);
    }
  }

  lemma {:induction false} PlayStanding(t: Table, answers: seq<Answer>, limit: nat, p: Pool,
                                        moves: seq<Move>, w: nat, late: bool, from: int)
    requires Valid(t) && |t.rows| == |answers| == |p.workers.stages| && limit >= 1 && w < |t.rows| && t.lastId <= from
    requires Legal(PlanFor(t.rows, answers, limit), p, moves) && Alone(moves)
    requires p.workers.stages[w] < RECORDED ==> late == Passes(answers[w])
    requires Standing(p.table, t.rows[w].key, late && p.workers.stages[w] >= RECORDED, from)
    ensures var q := Play(PlanFor(t.rows, answers, limit), p, moves);
            Standing(q.table, t.rows[w].key, late && q.workers.stages[w] >= RECORDED, from)
    decreases moves
  {
    hide Standing, CanStep, StepTable;
    if moves != [] {
      if moves[0].Work? {
        StepStanding(t, answers, limit, p, moves[0].w, moves[0].reading, w, late, from);
      }
      PlayStanding(t, answers, limit, Do(PlanFor(t.rows, answers, limit), p, moves[0]), moves[1..], w, late, from);
    }
  }

  /** A retest that listed the pool as `t` has got as far as `p`; then rows are deleted, and the address
      of row `w` is no longer there. However the retest goes on, the address is back at its end if and
      only if worker `w` had not yet executed its statement, its test passes and the store takes the
      report; and it is back under an id that had not been issued at the delete. */
  lemma {:induction false} LateReportRevives(t: Table, answers: seq<Answer>, limit: nat, p: Pool, ids: seq<int>,
                                             moves: seq<Move>, w: nat)
    requires Valid(t) && |t.rows| == |answers| == |p.workers.stages| && limit >= 1 && w < |t.rows|
    requires Valid(p.table) && Follows(t, p.table)
    requires var q := p.(table := Apply(p.table, DeleteMany(ids)));
             && !HasKey(q.table.rows, t.rows[w].key)
             && Legal(PlanFor(t.rows, answers, limit), q, moves) && Alone(moves)
             && Finished(Play(PlanFor(t.rows, answers, limit), q, moves).workers)
    ensures var q := p.(table := Apply(p.table, DeleteMany(ids)));
            var end := Play(PlanFor(t.rows, answers, limit), q, moves).table;
            && (HasKey(end.rows, t.rows[w].key) <==>
                  p.workers.stages[w] < RECORDED && answers[w].passed && !answers[w].storeFault)
            && forall i :: 0 <= i < |end.rows| && end.rows[i].key == t.rows[w].key ==> end.rows[i].id > p.table.lastId
  {
    hide Legal, Play, CanStep;
    ApplyKeepsValid(p.table, DeleteMany(ids));
    var q := p.(table := Apply(p.table, DeleteMany(ids)));
    PlayStanding(t, answers, limit, q, moves, w, p.workers.stages[w] < RECORDED && Passes(answers[w]), p.table.lastId);
  }

  /** It does happen: the worker has tested its row, the admin deletes the row, and the report brings
      the address back. */
  lemma {:induction false} DeletedAddressReturns(row: Row)
    requires row.id == 1 && Complete(row.key) && row.latencyMs >= 0
    ensures var t, plan := Table([row], 1), PlanFor([row], [Answer(true, 0, false)], 1);
            var p, work := Pool(InitWorkers(1), t), Work(0, Reading(5, 5, 0));
            var before := [work, work, work, Other(DeleteMany([1]))];
            var moves := before + [work, work, work, work, work];
            && Valid(t) && Legal(plan, p, before) && Play(plan, p, before).table.rows == []
            && Legal(plan, p, moves) && Finished(Play(plan, p, moves).workers)
            && Play(plan, p, moves).table.rows == [Row(2, row.key, row.country, 5, 0, 5, 5)]
  {
    hide Play, Legal, Statement;
    var t, plan := Table([row], 1), PlanFor([row], [Answer(true, 0, false)], 1);
    var p, work, delete := Pool(InitWorkers(1), t), Work(0, Reading(5, 5, 0)), Other(DeleteMany([1]));
    NoMoves(plan, p);
    var q := Then(plan, p, [], p, work, [work]);
    q := Then(plan, p, [work], q, work, [work, work]);
    q := Then(plan, p, [work, work], q, work, [work, work, work]);
    var before := [work, work, work, delete];
    q := Then(plan, p, [work, work, work], q, delete, before);
    OnlyRowDeleted(row);
    assert q.table == Table([], 1) && q.workers.stages == [JUDGED];
    q := Then(plan, p, before, q, work, before + [work]);
    OnlyRowReported(row);
    assert q.table.rows == [Row(2, row.key, row.country, 5, 0, 5, 5)];
    q := Then(plan, p, before + [work], q, work, before + [work, work]);
    q := Then(plan, p, before + [work, work], q, work, before + [work, work, work]);
    q := Then(plan, p, before + [work, work, work], q, work, before + [work, work, work, work]);
    q := Then(plan, p, before + [work, work, work, work], q, work, before + [work, work, work, work, work]);
  }

  lemma {:induction false} NoMoves(plan: Plan, p: Pool)
    requires plan.Valid() && |p.workers.stages| == |plan.jobs|
    ensures Legal(plan, p, []) && Play(plan, p, []) == p
  {
  }

  lemma {:induction false} Then(plan: Plan, p: Pool, moves: seq<Move>, q: Pool, m: Move, more: seq<Move>)
      returns (next: Pool)
    requires more == moves + [m]
    requires plan.Valid() && |p.workers.stages| == |plan.jobs| && Legal(plan, p, moves) && q == Play(plan, p, moves)
    requires m.Work? ==> CanStep(plan, q.workers, m.w)
    ensures Legal(plan, p, more) && next == Do(plan, q, m) == Play(plan, p, more)
  {
    PlaySnoc(plan, p, moves, m);
    next := Do(plan, q, m);
  }

  lemma {:induction false} OnlyRowDeleted(row: Row)
    requires row.id == 1
    ensures Apply(Table([row], 1), DeleteMany([1])) == Table([], 1)
  {
    assert [1][0] in SetOf([1]);
    assert Without([row], Positive([1])) == Without([row][1..], Positive([1]));
  }

  lemma {:induction false} OnlyRowReported(row: Row)
    requires Complete(row.key)
    ensures var op := Statement(Retest, Job(row.id, row.key, row.country), Answer(true, 0, false), Reading(5, 5, 0));
            Apply(Table([], 1), op) == Table([Row(2, row.key, row.country, 5, 0, 5, 5)], 2)
  {
  }
}
