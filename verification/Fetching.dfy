/** Fetching candidates into the pool: duplicates are dropped by their text, the rest are parsed and
    tested, and those that pass are stored. The addresses stored do not depend on the schedule. */
module Fetching {
  import opened Text
  import opened HostPort
  import opened ProxyTable
  import opened ProxyStore
  import opened WorkerPool

  function JobFor(raw: string, protocol: string, country: string): Option<Job> {
    match ParseIPPort(raw)
    case Ok((ip, port)) => Some(Job(0, Key(protocol, ip, port), country))
    case Err(_) => None
  }

  function Parsed(raws: seq<string>, parse: string -> Option<Job>): (r: seq<Option<Job>>)
    ensures |r| == |raws| && forall k :: 0 <= k < |raws| ==> r[k] == parse(raws[k])
  {
    seq(|raws|, k requires 0 <= k < |raws| => parse(raws[k]))
  }

  function Parser(protocol: string, country: string): string -> Option<Job> {
    raw => JobFor(raw, protocol, country)
  }

  /** The jobs for the first occurrence of every text that parses, in order. */
  function Candidates(raws: seq<string>, protocol: string, country: string): seq<Job> {
    FirstOfEach(raws, Parsed(raws, Parser(protocol, country)))
  }

  function FirstOfEach(raws: seq<string>, parsed: seq<Option<Job>>): seq<Job>
    requires |raws| == |parsed|
  {
    if raws == [] then []
    else
      var n := |raws| - 1;
      var earlier := FirstOfEach(raws[..n], parsed[..n]);
      if raws[n] in raws[..n] || parsed[n].None? then earlier else earlier + [parsed[n].value]
  }

  ghost function JobKeys(jobs: seq<Job>, who: set<nat>): set<Key> {
    set i: nat | i in who && i < |jobs| :: jobs[i].key
  }

  ghost function ParsedKeys(parsed: seq<Option<Job>>): set<Key> {
    set k | 0 <= k < |parsed| && parsed[k].Some? :: parsed[k].value.key
  }

  lemma {:induction false} FirstOfEachNext(raws: seq<string>, parsed: seq<Option<Job>>, k: nat)
    requires k < |raws| == |parsed|
    ensures FirstOfEach(raws[..k + 1], parsed[..k + 1])
         == FirstOfEach(raws[..k], parsed[..k])
            + if raws[k] in raws[..k] || parsed[k].None? then [] else [parsed[k].value]
  {
    assert raws[..k + 1][..k] == raws[..k] && parsed[..k + 1][..k] == parsed[..k];
  }

  /** `from` are the places of the texts that parse and did not occur before, in order. */
  ghost predicate FirstsOf(raws: seq<string>, parse: string -> Option<Job>, from: seq<nat>) {
    && (forall i :: 0 <= i < |from| ==>
          from[i] < |raws| && parse(raws[from[i]]).Some? && raws[from[i]] !in raws[..from[i]])
    && (forall i, j :: 0 <= i < j < |from| ==> from[i] < from[j])
    && (forall k: nat :: k < |raws| && parse(raws[k]).Some? && raws[k] !in raws[..k] ==> k in from)
  }

  /** The fetcher's first loop. */
  method CollectCandidates(raws: seq<string>, parse: string -> Option<Job>)
      returns (jobs: seq<Job>, ghost from: seq<nat>)
    ensures jobs == FirstOfEach(raws, Parsed(raws, parse))
    ensures FirstsOf(raws, parse, from) && |from| == |jobs|
    ensures forall i :: 0 <= i < |jobs| ==> parse(raws[from[i]]) == Some(jobs[i])
  {
    hide FirstOfEach;
    var seen: set<string> := {};
    ghost var parsed := Parsed(raws, parse);
    jobs, from := [], [];
    NoneOfNothing(raws, parsed);
    for k := 0 to |raws|
      invariant forall raw :: raw in seen <==> raw in raws[..k]
      invariant jobs == FirstOfEach(raws[..k], parsed[..k])
      invariant |from| == |jobs|
      invariant forall i :: 0 <= i < |from| ==>
                  from[i] < k && parse(raws[from[i]]) == Some(jobs[i]) && raws[from[i]] !in raws[..from[i]]
      invariant forall i, j :: 0 <= i < j < |from| ==> from[i] < from[j]
      invariant forall n: nat :: n < k && parse(raws[n]).Some? && raws[n] !in raws[..n] ==> n in from
    {
      var raw := raws[k];
      FirstOfEachNext(raws, parsed, k);
      assert raws[..k + 1] == raws[..k] + [raw];
      if raw !in seen {
        seen := seen + {raw};
        var job := parse(raw);
        if job.Some? {
          jobs, from := jobs + [job.value], from + [k];
          assert from[|from| - 1] == k;
        }
      }
    }
    assert raws[..|raws|] == raws && parsed[..|raws|] == parsed;
  }

  lemma {:induction false} NoneOfNothing(raws: seq<string>, parsed: seq<Option<Job>>)
    ensures FirstOfEach(raws[..0], parsed[..0]) == []
  {
  }

  /** The address that a text stands for. */
  ghost predicate StandsFor(raw: string, protocol: string, key: Key) {
    ParseIPPort(raw) == Ok((key.ip, key.port)) && key.protocol == protocol
  }

  lemma {:induction false} JobMeans(raw: string, protocol: string, country: string)
    ensures match JobFor(raw, protocol, country)
            case Some(job) => StandsFor(raw, protocol, job.key) && job.country == country && job.id == 0
            case None => ParseIPPort(raw).Err?
  {
    hide ParseIPPort;
  }

  /** Every candidate has the configured country. */
  lemma {:induction false} CandidatesHaveCountry(raws: seq<string>, protocol: string, country: string, i: nat)
    requires i < |Candidates(raws, protocol, country)|
    ensures Candidates(raws, protocol, country)[i].country == country
  {
    hide JobFor, FirstOfEach;
    var parsed := Parsed(raws, Parser(protocol, country));
    var job := Candidates(raws, protocol, country)[i];
    FirstOfEachFrom(raws, parsed);
    assert job in FirstOfEach(raws, parsed);
    var k :| 0 <= k < |parsed| && parsed[k] == Some(job);
    JobMeans(raws[k], protocol, country);
  }

  /** The candidates' addresses are exactly those that some text stands for: repeated texts lose none,
      and none is invented. */
  lemma {:induction false} CandidatesCoverAddresses(raws: seq<string>, protocol: string, country: string, key: Key)
    ensures var jobs := Candidates(raws, protocol, country);
            key in JobKeys(jobs, All(|jobs|)) <==> exists raw :: raw in raws && StandsFor(raw, protocol, key)
  {
    hide JobFor, StandsFor, FirstOfEach, JobKeys;
    var parsed := Parsed(raws, Parser(protocol, country));
    FirstOfEachCovers(raws, parsed);
    forall k | 0 <= k < |raws|
      ensures parsed[k].Some? ==> StandsFor(raws[k], protocol, parsed[k].value.key)
      ensures StandsFor(raws[k], protocol, key) ==> parsed[k].Some? && parsed[k].value.key == key
    {
      JobMeans(raws[k], protocol, country);
      OneAddress(raws[k], protocol, country, key);
    }
    if key in ParsedKeys(parsed) {
      var k :| 0 <= k < |parsed| && parsed[k].Some? && parsed[k].value.key == key;
      assert raws[k] in raws && StandsFor(raws[k], protocol, key);
    }
    if raw :| raw in raws && StandsFor(raw, protocol, key) {
      var k :| 0 <= k < |raws| && raws[k] == raw;
      assert parsed[k].Some? && parsed[k].value.key == key;
    }
  }

  lemma {:induction false} OneAddress(raw: string, protocol: string, country: string, key: Key)
    ensures StandsFor(raw, protocol, key) ==>
              JobFor(raw, protocol, country).Some? && JobFor(raw, protocol, country).value.key == key
  {
    hide ParseIPPort;
  }

  lemma {:induction false} FirstOfEachFrom(raws: seq<string>, parsed: seq<Option<Job>>)
    requires |raws| == |parsed|
    ensures forall job :: job in FirstOfEach(raws, parsed) ==> Some(job) in parsed
  {
    if raws != [] {
      var n := |raws| - 1;
      FirstOfEachFrom(raws[..n], parsed[..n]);
      assert parsed == parsed[..n] + [parsed[n]];
    }
  }

  lemma {:induction false} FirstOfEachCovers(raws: seq<string>, parsed: seq<Option<Job>>)
    requires |raws| == |parsed|
    requires forall i, j :: 0 <= i < |raws| && 0 <= j < |raws| && raws[i] == raws[j] ==> parsed[i] == parsed[j]
    ensures var jobs := FirstOfEach(raws, parsed);
            JobKeys(jobs, All(|jobs|)) == ParsedKeys(parsed)
  {
    if raws != [] {
      var n := |raws| - 1;
      var earlier, last := FirstOfEach(raws[..n], parsed[..n]), parsed[n];
      FirstOfEachCovers(raws[..n], parsed[..n]);
      assert ParsedKeys(parsed) == ParsedKeys(parsed[..n]) + (if last.Some? then {last.value.key} else {}) by {
        assert forall k :: 0 <= k < n ==> parsed[..n][k] == parsed[k];
      }
      if raws[n] in raws[..n] {
        var k :| 0 <= k < n && raws[..n][k] == raws[n];
        assert parsed[..n][k] == last;
      } else if last.Some? {
        KeysSnoc(earlier, last.value);
      }
    }
  }

  lemma {:induction false} KeysSnoc(jobs: seq<Job>, job: Job)
    ensures var more := jobs + [job];
            JobKeys(more, All(|more|)) == JobKeys(jobs, All(|jobs|)) + {job.key}
  {
  }

  /** With a protocol set, candidates always have the fields the store insists on; without one never. */
  lemma {:induction false} AddressIsComplete(raw: string, protocol: string, key: Key)
    requires StandsFor(raw, protocol, key)
    ensures Complete(key) <==> !IsBlank(protocol)
  {
    hide ParseIPPort, IsBlank;
    ParsedIsPrintable(raw);
  }

  lemma {:induction false} CandidatesAreComplete(raws: seq<string>, protocol: string, country: string, i: nat)
    requires i < |Candidates(raws, protocol, country)|
    ensures Complete(Candidates(raws, protocol, country)[i].key) <==> !IsBlank(protocol)
  {
    hide FirstOfEach, Complete, IsBlank, ParseIPPort;
    var jobs := Candidates(raws, protocol, country);
    assert i in All(|jobs|) && jobs[i].key in JobKeys(jobs, All(|jobs|));
    CandidatesCoverAddresses(raws, protocol, country, jobs[i].key);
    var raw :| raw in raws && StandsFor(raw, protocol, jobs[i].key);
    AddressIsComplete(raw, protocol, jobs[i].key);
  }

  /** Two different texts of one address both become candidates: duplicates are recognised by text. */
  lemma {:induction false} SpellingsBothTested(host: string, port: int, protocol: string, country: string)
    requires Printable(host, port)
    ensures var jobs := Candidates([Addr(host, port), Addr(host, port) + " "], protocol, country);
            jobs == [Job(0, Key(protocol, host, port), country), Job(0, Key(protocol, host, port), country)]
  {
    var job := Job(0, Key(protocol, host, port), country);
    PrintableParses(host, port);
    TrailingBlankParses(host, port);
    assert |Addr(host, port) + " "| == |Addr(host, port)| + 1;
    BothFirst(Addr(host, port), Addr(host, port) + " ", Parser(protocol, country), job);
  }

  lemma {:induction false} BothFirst(a: string, b: string, parse: string -> Option<Job>, job: Job)
    requires a != b && parse(a) == parse(b) == Some(job)
    ensures FirstOfEach([a, b], Parsed([a, b], parse)) == [job, job]
  {
    assert Parsed([a, b], parse) == [Some(job), Some(job)];
    assert [a, b][..1] == [a] && [Some(job), Some(job)][..1] == [Some(job)];
    assert [a][..0] == [] && [Some(job)][..0] == [];
    assert FirstOfEach([a], [Some(job)]) == [job];
  }

  // ----- every schedule -----

  function PlanFor(jobs: seq<Job>, answers: seq<Answer>, limit: nat): Plan {
    Plan(Fetch, jobs, answers, limit)
  }

  /** The addresses of the workers that have stored theirs. */
  ghost function StoredKeys(plan: Plan, stages: seq<Stage>): set<Key>
    requires plan.Valid()
  {
    JobKeys(plan.jobs, Among(stages, RECORDED, DONE + 1, With(plan, Stored)))
  }

  lemma {:induction false} StepStores(plan: Plan, t: Table, p: Pool, w: nat, r: Reading)
    requires plan.Valid() && plan.kind == Fetch && |p.workers.stages| == |plan.jobs| && CanStep(plan, p.workers, w)
    requires Keys(p.table.rows) == Keys(t.rows) + StoredKeys(plan, p.workers.stages)
    ensures var q := Do(plan, p, Work(w, r));
            Keys(q.table.rows) == Keys(t.rows) + StoredKeys(plan, q.workers.stages)
  {
    var stages, next := p.workers.stages, StepWorkers(plan, p.workers, w).stages;
    var before := Among(stages, RECORDED, DONE + 1, With(plan, Stored));
    var after := Among(next, RECORDED, DONE + 1, With(plan, Stored));
    assert forall i :: 0 <= i < |stages| && i != w ==> next[i] == stages[i];
    if stages[w] == JUDGED && w in With(plan, Stored) {
      KeysAfterApply(p.table, Statement(plan.kind, plan.jobs[w], plan.answers[w], r));
      assert after == before + {w};
      assert StoredKeys(plan, next) == StoredKeys(plan, stages) + {plan.jobs[w].key};
    } else {
      assert after == before;
    }
  }

  lemma {:induction false} PlayStores(plan: Plan, t: Table, p: Pool, moves: seq<Move>)
    requires plan.Valid() && plan.kind == Fetch && |p.workers.stages| == |plan.jobs|
    requires Legal(plan, p, moves) && Alone(moves)
    requires Keys(p.table.rows) == Keys(t.rows) + StoredKeys(plan, p.workers.stages)
    ensures var q := Play(plan, p, moves);
            Keys(q.table.rows) == Keys(t.rows) + StoredKeys(plan, q.workers.stages)
    decreases moves
  {
    if moves != [] {
      if moves[0].Work? {
        StepStores(plan, t, p, moves[0].w, moves[0].reading);
      }
      PlayStores(plan, t, Do(plan, p, moves[0]), moves[1..]);
    }
  }

  /** For every schedule the final addresses are the old ones and those of the candidates that
      passed and were stored. The pool grows by the new ones among them: at most one row for each
      stored candidate, and exactly one for each if and only if their addresses are new and all
      different. */
  lemma {:induction false} FetchConfluent(plan: Plan, t: Table, moves: seq<Move>)
    requires plan.Valid() && plan.kind == Fetch && Valid(t)
    requires Legal(plan, Pool(InitWorkers(|plan.jobs|), t), moves) && Alone(moves)
    requires Finished(Play(plan, Pool(InitWorkers(|plan.jobs|), t), moves).workers)
    ensures var u := Play(plan, Pool(InitWorkers(|plan.jobs|), t), moves).table;
            var added := JobKeys(plan.jobs, With(plan, Stored));
            && Valid(u) && Follows(t, u)
            && Keys(u.rows) == Keys(t.rows) + added
            && |u.rows| - |t.rows| == |added - Keys(t.rows)| <= |With(plan, Stored)|
            && (|u.rows| - |t.rows| == |With(plan, Stored)| <==>
                  DifferentKeys(plan.jobs, With(plan, Stored)) && added !! Keys(t.rows))
  {
    var p := Pool(InitWorkers(|plan.jobs|), t);
    var q := Play(plan, p, moves);
    var who := With(plan, Stored);
    NoneAmong(p.workers.stages, RECORDED, DONE + 1, who);
    PlayStores(plan, t, p, moves);
    AllAmong(q.workers.stages, RECORDED, who);
    PlayKeepsValid(plan, p, moves);
    CountKeys(t.rows);
    CountKeys(q.table.rows);
    KeyCount(plan.jobs, who);
    var old', added := Keys(t.rows), JobKeys(plan.jobs, who);
    Growth(old', added);
  }

  /** The row is what some worker's stored report made of it. */
  ghost predicate Made(plan: Plan, stages: seq<Stage>, row: Row)
    requires plan.Valid()
  {
    exists w: nat ::
      && w in Among(stages, RECORDED, DONE + 1, With(plan, Stored)) && w < |plan.jobs|
      && row.key == plan.jobs[w].key && row.country == plan.jobs[w].country
      && row.latencyMs == Millis(plan.answers[w].latency)
  }

  /** Rows of other addresses are as they were; the others are what a stored report made of them. */
  ghost predicate RowsTrack(plan: Plan, t: Table, p: Pool)
    requires plan.Valid()
  {
    && Valid(p.table)
    && (forall row :: row in p.table.rows && row !in t.rows ==> Made(plan, p.workers.stages, row))
    && (forall row :: row in p.table.rows && row.key in StoredKeys(plan, p.workers.stages)
                      ==> Made(plan, p.workers.stages, row))
    && (forall row :: row in t.rows && row.key !in StoredKeys(plan, p.workers.stages) ==> row in p.table.rows)
  }

  lemma {:induction false} StepRows(plan: Plan, t: Table, p: Pool, w: nat, r: Reading)
    requires plan.Valid() && plan.kind == Fetch && |p.workers.stages| == |plan.jobs| && CanStep(plan, p.workers, w)
    requires RowsTrack(plan, t, p)
    ensures RowsTrack(plan, t, Do(plan, p, Work(w, r)))
  {
    hide Valid, Apply, OutcomeOf;
    var q := Do(plan, p, Work(w, r));
    var stages, next := p.workers.stages, q.workers.stages;
    var before := Among(stages, RECORDED, DONE + 1, With(plan, Stored));
    var after := Among(next, RECORDED, DONE + 1, With(plan, Stored));
    OutcomesAre(Fetch, plan.jobs[w], plan.answers[w]);
    assert forall i :: 0 <= i < |stages| && i != w ==> next[i] == stages[i];
    if stages[w] == JUDGED && w in With(plan, Stored) {
      assert after == before + {w};
      assert StoredKeys(plan, next) == StoredKeys(plan, stages) + {plan.jobs[w].key};
      forall row | Made(plan, stages, row) ensures Made(plan, next, row) {
        var v: nat :| v in before && v < |plan.jobs| && row.key == plan.jobs[v].key
                      && row.country == plan.jobs[v].country && row.latencyMs == Millis(plan.answers[v].latency);
        assert v in after;
      }
      var a := plan.answers[w];
      var report := Report(plan.jobs[w].key, plan.jobs[w].country, r.testedAt, a.latency, r.now);
      UpsertRows(p.table, report, r.skip);
      forall row | row in q.table.rows && row.key == report.key ensures Made(plan, next, row) {
        assert w in after;
      }
    } else {
      assert after == before;
      StatementIdle(p.table, plan.jobs[w], plan.answers[w], r);
    }
  }

  lemma {:induction false} StatementIdle(t: Table, job: Job, a: Answer, r: Reading)
    ensures !(a.passed && Complete(job.key) && !a.storeFault) ==> Apply(t, Statement(Fetch, job, a, r)) == t
  {
  }

  lemma {:induction false} UpsertRows(t: Table, r: Report, skip: nat)
    requires Valid(t) && Complete(r.key)
    ensures var u := Apply(t, Upsert(r, skip));
            && Valid(u)
            && (forall row :: row in u.rows && row.key == r.key ==>
                  row.country == r.country && row.latencyMs == Millis(r.latency))
            && (forall row: Row :: row.key != r.key ==> (row in u.rows <==> row in t.rows))
  {
    hide Apply, SortedById, Complete, Millis;
    var u := Apply(t, Upsert(r, skip));
    ApplyKeepsValid(t, Upsert(r, skip));
    var i := UpsertRecords(t, r, skip);
    forall row | row in u.rows
      ensures row.key == r.key ==> row == u.rows[i]
      ensures row.key != r.key ==> row in t.rows
    {
      var k :| 0 <= k < |u.rows| && u.rows[k] == row;
    }
    forall row | row in t.rows && row.key != r.key ensures row in u.rows {
      var k :| 0 <= k < |t.rows| && t.rows[k] == row;
      assert k != i ==> u.rows[k] == row;
    }
  }

  lemma {:induction false} PlayRows(plan: Plan, t: Table, p: Pool, moves: seq<Move>)
    requires plan.Valid() && plan.kind == Fetch && |p.workers.stages| == |plan.jobs|
    requires Legal(plan, p, moves) && Alone(moves) && RowsTrack(plan, t, p)
    ensures RowsTrack(plan, t, Play(plan, p, moves))
    decreases moves
  {
    hide Valid, StepTable, Made;
    if moves != [] {
      if moves[0].Work? {
        StepRows(plan, t, p, moves[0].w, moves[0].reading);
      }
      PlayRows(plan, t, Do(plan, p, moves[0]), moves[1..]);
    }
  }

  /** For every schedule: a row whose address no stored candidate has is as it was before, and every
      other row has the country and the latency of one of the candidates stored under its address. */
  lemma {:induction false} FetchRows(plan: Plan, t: Table, moves: seq<Move>)
    requires plan.Valid() && plan.kind == Fetch && Valid(t)
    requires Legal(plan, Pool(InitWorkers(|plan.jobs|), t), moves) && Alone(moves)
    requires Finished(Play(plan, Pool(InitWorkers(|plan.jobs|), t), moves).workers)
    ensures var u := Play(plan, Pool(InitWorkers(|plan.jobs|), t), moves).table;
            var added := JobKeys(plan.jobs, With(plan, Stored));
            && (forall row :: row in t.rows && row.key !in added ==> row in u.rows)
            && (forall row :: row in u.rows && (row.key in added || row !in t.rows) ==>
                  exists w: nat :: w in With(plan, Stored) && w < |plan.jobs| && row.key == plan.jobs[w].key
                    && row.country == plan.jobs[w].country && row.latencyMs == Millis(plan.answers[w].latency))
  {
    hide Play, Legal, With;
    var p := Pool(InitWorkers(|plan.jobs|), t);
    NoneAmong(p.workers.stages, RECORDED, DONE + 1, With(plan, Stored));
    assert StoredKeys(plan, p.workers.stages) == {};
    PlayRows(plan, t, p, moves);
    WithIsBounded(plan, Stored);
    AllAmong(Play(plan, p, moves).workers.stages, RECORDED, With(plan, Stored));
  }

  lemma {:induction false} WithIsBounded(plan: Plan, o: Outcome)
    requires plan.Valid()
    ensures forall i :: i in With(plan, o) ==> i < |plan.jobs|
  {
  }

  ghost predicate DifferentKeys(jobs: seq<Job>, who: set<nat>) {
    forall i: nat, j: nat :: i in who && j in who && i < |jobs| && j < |jobs| && i != j ==> jobs[i].key != jobs[j].key
  }

  lemma {:induction false} Growth(a: set<Key>, b: set<Key>)
    ensures |a + b| == |a| + |b - a| && |b - a| <= |b|
    ensures |b - a| == |b| <==> b !! a
  {
  }

  lemma {:induction false} KeyCount(jobs: seq<Job>, who: set<nat>)
    requires forall i :: i in who ==> i < |jobs|
    ensures |JobKeys(jobs, who)| <= |who|
    ensures |JobKeys(jobs, who)| == |who| <==> DifferentKeys(jobs, who)
    decreases |who|
  {
    if w :| w in who {
      var rest := who - {w};
      KeyCount(jobs, rest);
      assert JobKeys(jobs, who) == JobKeys(jobs, rest) + {jobs[w].key};
      if jobs[w].key in JobKeys(jobs, rest) {
        var i: nat :| i in rest && i < |jobs| && jobs[i].key == jobs[w].key;
        assert JobKeys(jobs, who) == JobKeys(jobs, rest);
      } else {
        assert DifferentKeys(jobs, who) <==> DifferentKeys(jobs, rest);
      }
    } else {
      assert who == {} && JobKeys(jobs, who) == {};
    }
  }

  // ----- the operation -----

  datatype FetchResult = FetchResult(returned: nat, candidates: nat, tested: nat, inserted: nat, failed: nat,
                                     storeErrors: nat, samples: seq<nat>)

  /** The candidate with this answer is stored: its test passes and the store takes the report. */
  ghost predicate IsStored(a: Answer, protocol: string) {
    a.passed && !a.storeFault && !IsBlank(protocol)
  }

  /** Some stored candidate stands for this address. */
  ghost predicate StoredAt(raws: seq<string>, from: seq<nat>, answer: nat -> Answer, protocol: string, key: Key, i: nat) {
    i < |from| && from[i] < |raws| && IsStored(answer(i), protocol) && StandsFor(raws[from[i]], protocol, key)
  }

  /** Tests the fetched texts with at most `concurrency` tests at a time and stores those that pass.
      `from` are the places of the candidates: the first occurrence of each text that parses. */
  method FetchOnce(st: Store, raws: seq<string>, protocol: string, country: string, concurrency: int,
                   answer: nat -> Answer)
      returns (result: FetchResult, ghost from: seq<nat>, ghost plan: Plan, ghost moves: seq<Move>)
    requires Valid(st.table)
    modifies st
    ensures Valid(st.table) && Follows(old(st.table), st.table)
    // the candidates
    ensures result.returned == |raws| && result.candidates == result.tested == |from|
    ensures forall i :: 0 <= i < |from| ==>
              from[i] < |raws| && ParseIPPort(raws[from[i]]).Ok? && raws[from[i]] !in raws[..from[i]]
    ensures forall i, j :: 0 <= i < j < |from| ==> from[i] < from[j]
    ensures forall k: nat :: k < |raws| && ParseIPPort(raws[k]).Ok? && raws[k] !in raws[..k] ==> k in from
    // the counts
    ensures result.inserted
         == |set i: nat | i < |from| && answer(i).passed && !answer(i).storeFault && !IsBlank(protocol)|
    ensures result.failed == |set i: nat | i < |from| && !answer(i).passed|
    ensures result.storeErrors
         == |set i: nat | i < |from| && answer(i).passed && (answer(i).storeFault || IsBlank(protocol))|
    ensures result.candidates == result.inserted + result.failed + result.storeErrors
    ensures |result.samples| == if |from| - result.inserted < 5 then |from| - result.inserted else 5
    ensures forall i, j :: 0 <= i < j < |result.samples| ==> result.samples[i] != result.samples[j]
    ensures forall w: nat :: w in result.samples ==> w < |from| && !IsStored(answer(w), protocol)
    // the pool
    ensures forall key :: key in Keys(st.table.rows) <==>
              key in Keys(old(st.table).rows) || exists i :: StoredAt(raws, from, answer, protocol, key, i)
    ensures forall row :: row in old(st.table).rows && (forall i :: !StoredAt(raws, from, answer, protocol, row.key, i))
              ==> row in st.table.rows
    ensures forall row :: row in st.table.rows && row !in old(st.table).rows ==>
              exists i :: StoredAt(raws, from, answer, protocol, row.key, i) && row.country == country
                          && row.latencyMs == Millis(answer(i).latency)
    ensures 0 <= |st.table.rows| - |old(st.table).rows| <= result.inserted
    // the limit
    ensures plan.Valid() && |plan.jobs| == |from|
    ensures NeverMoreThan(plan, old(st.table), moves, if concurrency < 1 then 1 else concurrency)
    ensures Play(plan, Pool(InitWorkers(|plan.jobs|), old(st.table)), moves[..|moves|]).table == st.table
  {
    hide Parser, FirstOfEach, Valid, Follows, Inv, Legal, Play, NeverMoreThan, With, ParseIPPort, IsBlank,
         SamplesOf;
    var limit: nat := if concurrency < 1 then 1 else concurrency;
    var jobs;
    jobs, from := CollectCandidates(raws, Parser(protocol, country));
    var todo := PlanFor(jobs, Answers(|jobs|, answer), limit);
    plan, moves := todo, [];
    CandidatesMean(raws, jobs, from, protocol, country);
    CountOutcomes(todo, protocol, answer);
    ghost var before := st.table;
    if |jobs| == 0 {
      NothingToFetch(before, todo, protocol, answer);
      return FetchResult(|raws|, 0, 0, 0, 0, 0, []), from, plan, moves;
    }
    var ws;
    ws, moves := RunPool(st, todo);
    assert moves[..|moves|] == moves;
    LimitIsKept(todo, before, moves);
    FetchConfluent(todo, before, moves);
    FetchRows(todo, before, moves);
    AccountsBalance(todo, ws);
    SampledCandidates(todo, protocol, answer, ws.tally.samples);
    PoolMeans(before, st.table, todo, raws, from, protocol, country, answer);
    result := FetchResult(|raws|, |jobs|, ws.tally.tested, ws.tally.stored, ws.tally.failed, ws.tally.errors,
                          ws.tally.samples);
  }

  function Answers(n: nat, answer: nat -> Answer): (r: seq<Answer>)
    ensures |r| == n && forall i :: 0 <= i < n ==> r[i] == answer(i)
  {
    seq(n, i requires 0 <= i < n => answer(i))
  }

  /** The jobs are those of the candidates' own addresses. */
  ghost predicate JobsOf(jobs: seq<Job>, raws: seq<string>, from: seq<nat>, protocol: string, country: string) {
    && |jobs| == |from|
    && forall i :: 0 <= i < |jobs| ==>
         && from[i] < |raws| && StandsFor(raws[from[i]], protocol, jobs[i].key)
         && jobs[i].country == country && (Complete(jobs[i].key) <==> !IsBlank(protocol))
  }

  lemma {:induction false} CandidatesMean(raws: seq<string>, jobs: seq<Job>, from: seq<nat>,
                                          protocol: string, country: string)
    requires |from| == |jobs| && FirstsOf(raws, Parser(protocol, country), from)
    requires forall i :: 0 <= i < |jobs| ==> Parser(protocol, country)(raws[from[i]]) == Some(jobs[i])
    ensures JobsOf(jobs, raws, from, protocol, country)
    ensures forall i :: 0 <= i < |from| ==>
              from[i] < |raws| && ParseIPPort(raws[from[i]]).Ok? && raws[from[i]] !in raws[..from[i]]
    ensures forall k: nat :: k < |raws| && ParseIPPort(raws[k]).Ok? && raws[k] !in raws[..k] ==> k in from
  {
    hide JobFor, ParseIPPort, Complete, IsBlank;
    forall k: nat | k < |raws|
      ensures ParseIPPort(raws[k]).Ok? <==> Parser(protocol, country)(raws[k]).Some?
    {
      JobMeans(raws[k], protocol, country);
      ParsesIffJob(raws[k], protocol, country);
    }
    forall i | 0 <= i < |jobs|
      ensures StandsFor(raws[from[i]], protocol, jobs[i].key) && jobs[i].country == country
      ensures Complete(jobs[i].key) <==> !IsBlank(protocol)
    {
      JobMeans(raws[from[i]], protocol, country);
      AddressIsComplete(raws[from[i]], protocol, jobs[i].key);
    }
  }

  lemma {:induction false} ParsesIffJob(raw: string, protocol: string, country: string)
    ensures ParseIPPort(raw).Ok? <==> JobFor(raw, protocol, country).Some?
  {
    hide ParseIPPort;
  }

  /** The workers' outcomes, counted by the answers alone. */
  lemma {:induction false} CountOutcomes(plan: Plan, protocol: string, answer: nat -> Answer)
    requires plan.Valid() && plan.kind == Fetch && plan.answers == Answers(|plan.jobs|, answer)
    requires forall i :: 0 <= i < |plan.jobs| ==> (Complete(plan.jobs[i].key) <==> !IsBlank(protocol))
    ensures var n := |plan.jobs|;
            && |With(plan, Stored)|
                 == |set i: nat | i < n && answer(i).passed && !answer(i).storeFault && !IsBlank(protocol)|
            && |With(plan, Failed)| == |set i: nat | i < n && !answer(i).passed|
            && |With(plan, StoreError)|
                 == |set i: nat | i < n && answer(i).passed && (answer(i).storeFault || IsBlank(protocol))|
    ensures forall i :: 0 <= i < |plan.jobs| ==> (i in With(plan, Stored) <==> IsStored(answer(i), protocol))
  {
    hide OutcomeOf, Complete, IsBlank;
    var n := |plan.jobs|;
    forall i | 0 <= i < n
      ensures OutcomeOf(Fetch, plan.jobs[i], plan.answers[i])
           == if !answer(i).passed then Failed else if IsStored(answer(i), protocol) then Stored else StoreError
    {
      OutcomesAre(Fetch, plan.jobs[i], plan.answers[i]);
    }
    assert With(plan, Stored)
        == set i: nat | i < n && answer(i).passed && !answer(i).storeFault && !IsBlank(protocol);
    assert With(plan, Failed) == set i: nat | i < n && !answer(i).passed;
    assert With(plan, StoreError)
        == set i: nat | i < n && answer(i).passed && (answer(i).storeFault || IsBlank(protocol));
  }

  lemma {:induction false} SampledCandidates(plan: Plan, protocol: string, answer: nat -> Answer, samples: seq<nat>)
    requires plan.Valid() && SamplesOf(samples, Unhappy(plan))
    requires forall i :: 0 <= i < |plan.jobs| ==> (i in With(plan, Stored) <==> IsStored(answer(i), protocol))
    ensures forall i, j :: 0 <= i < j < |samples| ==> samples[i] != samples[j]
    ensures forall w: nat :: w in samples ==> w < |plan.jobs| && !IsStored(answer(w), protocol)
  {
    hide OutcomeOf, IsStored;
    forall i | 0 <= i < |samples|
      ensures samples[i] < |plan.jobs| && !IsStored(answer(samples[i]), protocol)
    {
      assert samples[i] in Unhappy(plan);
    }
  }

  lemma {:induction false} NothingToFetch(t: Table, plan: Plan, protocol: string, answer: nat -> Answer)
    requires Valid(t) && plan.Valid() && plan.jobs == []
    ensures Follows(t, t) && NeverMoreThan(plan, t, [], plan.limit)
    ensures Play(plan, Pool(InitWorkers(0), t), []).table == t
    ensures |With(plan, Stored)| == |With(plan, Failed)| == |With(plan, StoreError)| == 0
  {
    FollowsRefl(t);
    LimitIsKept(plan, t, []);
    WithIsBounded(plan, Stored);
    WithIsBounded(plan, Failed);
    WithIsBounded(plan, StoreError);
    assert With(plan, Stored) == {} && With(plan, Failed) == {} && With(plan, StoreError) == {};
  }

  /** What the pool holds, in terms of the texts that were fetched. */
  lemma {:induction false} PoolMeans(t: Table, u: Table, plan: Plan, raws: seq<string>, from: seq<nat>,
                                     protocol: string, country: string, answer: nat -> Answer)
    requires plan.Valid() && JobsOf(plan.jobs, raws, from, protocol, country)
    requires plan.answers == Answers(|plan.jobs|, answer)
    requires forall i :: 0 <= i < |plan.jobs| ==> (i in With(plan, Stored) <==> IsStored(answer(i), protocol))
    requires Keys(u.rows) == Keys(t.rows) + JobKeys(plan.jobs, With(plan, Stored))
    requires forall row :: row in t.rows && row.key !in JobKeys(plan.jobs, With(plan, Stored)) ==> row in u.rows
    requires forall row :: row in u.rows && row !in t.rows ==>
               exists w: nat :: w in With(plan, Stored) && w < |plan.jobs| && row.key == plan.jobs[w].key
                 && row.country == plan.jobs[w].country && row.latencyMs == Millis(plan.answers[w].latency)
    ensures forall key :: key in Keys(u.rows) <==>
              key in Keys(t.rows) || exists i :: StoredAt(raws, from, answer, protocol, key, i)
    ensures forall row :: row in t.rows && (forall i :: !StoredAt(raws, from, answer, protocol, row.key, i))
              ==> row in u.rows
    ensures forall row :: row in u.rows && row !in t.rows ==>
              exists i :: StoredAt(raws, from, answer, protocol, row.key, i) && row.country == country
                          && row.latencyMs == Millis(answer(i).latency)
  {
    hide With, IsStored, Complete, IsBlank, ParseIPPort;
    forall key ensures key in JobKeys(plan.jobs, With(plan, Stored)) <==>
                         exists i :: StoredAt(raws, from, answer, protocol, key, i)
    {
      StoredKeysMean(plan, raws, from, protocol, country, answer, key);
    }
    forall row | row in u.rows && row !in t.rows
      ensures exists i :: StoredAt(raws, from, answer, protocol, row.key, i) && row.country == country
                          && row.latencyMs == Millis(answer(i).latency)
    {
      var w: nat :| w in With(plan, Stored) && w < |plan.jobs| && row.key == plan.jobs[w].key
                    && row.country == plan.jobs[w].country && row.latencyMs == Millis(plan.answers[w].latency);
      assert StoredAt(raws, from, answer, protocol, row.key, w);
    }
  }

  lemma {:induction false} StoredKeysMean(plan: Plan, raws: seq<string>, from: seq<nat>, protocol: string, country: string,
                                          answer: nat -> Answer, key: Key)
    requires plan.Valid() && JobsOf(plan.jobs, raws, from, protocol, country)
    requires forall i :: 0 <= i < |plan.jobs| ==> (i in With(plan, Stored) <==> IsStored(answer(i), protocol))
    ensures key in JobKeys(plan.jobs, With(plan, Stored)) <==>
              exists i :: StoredAt(raws, from, answer, protocol, key, i)
  {
    hide With, IsStored, Complete, IsBlank, ParseIPPort;
    if key in JobKeys(plan.jobs, With(plan, Stored)) {
      var i: nat :| i in With(plan, Stored) && i < |plan.jobs| && plan.jobs[i].key == key;
      assert StoredAt(raws, from, answer, protocol, key, i);
    }
    if i: nat :| StoredAt(raws, from, answer, protocol, key, i) {
      assert plan.jobs[i].key == key;
    }
  }
}
