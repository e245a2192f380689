/** The tunnel: two copies run at once, one each way, and each closes the connection it writes to when
    it ends. Reads, writes and closes of the two interleave freely; reads may end or writes fail at
    any time, but one that was started returns. */
module Tunnel {
  import opened Wire
  import opened Socks5
  import opened Text

  /** `io.Copy` moves at most this much at a time; it is larger than any connection's buffer. */
  const COPY_SIZE: nat := 32 * 1024

  /** `lost` is what a failed write left of the chunk in hand. */
  datatype Copier = Reading | Holding(chunk: seq<byte>) | Closing(lost: seq<byte>) | Ended(lost: seq<byte>)

  /** One direction: what its source still has buffered, what will arrive there, whether that
      connection is open, how far the copy is, and what the target was given. */
  datatype Flow = Flow(buf: seq<byte>, net: seq<byte>, open: bool, copier: Copier, got: seq<byte>)

  datatype Pipe = Pipe(ab: Flow, ba: Flow)

  datatype Action =
    | Read(n: nat)
    | ReadEnd
    | Write(n: nat, ok: bool)
    | CloseTarget

  datatype Event = Event(toB: bool, action: Action)

  /** One action of a copy; one that is not possible waits. Buffered bytes are handed out even after
      the connection was closed; beyond them reading needs an open connection. */
  function Act(f: Flow, action: Action): Flow {
    match action
    case Read(n) =>
      if !f.copier.Reading? then f
      else if f.buf != [] then
        var k := if |f.buf| <= COPY_SIZE then |f.buf| else COPY_SIZE;
        f.(copier := Holding(f.buf[..k]), buf := f.buf[k..])
      else if f.open && 0 < n <= |f.net| && n <= COPY_SIZE then
        f.(copier := Holding(f.net[..n]), net := f.net[n..])
      else f
    case ReadEnd => if f.copier.Reading? && f.buf == [] then f.(copier := Closing([])) else f
    case Write(n, ok) =>
      if !f.copier.Holding? then f
      else if ok then f.(copier := Reading, got := f.got + f.copier.chunk)
      else
        var k := if n <= |f.copier.chunk| then n else |f.copier.chunk|;
        f.(copier := Closing(f.copier.chunk[k..]), got := f.got + f.copier.chunk[..k])
    case CloseTarget => if f.copier.Closing? then f.(copier := Ended(f.copier.lost)) else f
  }

  /** A copy that ends closes its target, which is the other copy's source. */
  function Happen(p: Pipe, e: Event): Pipe {
    if e.toB then
      var f := Act(p.ab, e.action);
      Pipe(f, if f.copier.Ended? then p.ba.(open := false) else p.ba)
    else
      var f := Act(p.ba, e.action);
      Pipe(if f.copier.Ended? then p.ab.(open := false) else p.ab, f)
  }

  function Play(p: Pipe, es: seq<Event>): Pipe
    decreases es
  {
    if es == [] then p else Play(Happen(p, es[0]), es[1..])
  }

  // ----- what holds in every state -----

  /** What was taken from the source and not given to the target. */
  function InHand(c: Copier): seq<byte> {
    match c
    case Reading => []
    case Holding(chunk) => chunk
    case Closing(lost) => lost
    case Ended(lost) => lost
  }

  /** Nothing is lost inside, duplicated or reordered. */
  ghost predicate Ledger(f: Flow, all: seq<byte>) {
    f.got + InHand(f.copier) + (f.buf + f.net) == all
  }

  /** The first read takes all that was buffered; and a connection is open until the copy that
      writes to it has ended. */
  ghost predicate Inv(p: Pipe) {
    && Drained(p.ab) && Drained(p.ba)
    && (p.ab.copier.Ended? <==> !p.ba.open)
    && (p.ba.copier.Ended? <==> !p.ab.open)
  }

  ghost predicate Drained(f: Flow) {
    |f.buf| <= COPY_SIZE && (f.copier.Reading? || f.buf == [])
  }

  lemma {:induction false} ActKeepsLedger(f: Flow, action: Action, all: seq<byte>)
    requires Ledger(f, all)
    ensures Ledger(Act(f, action), all) && f.got <= Act(f, action).got
  {
    var g := Act(f, action);
    if g != f {
      match action
      case Read(n) =>
        assert InHand(g.copier) + (g.buf + g.net) == f.buf + f.net;
        Regrouped(f.got, InHand(g.copier), g.buf + g.net);
      case Write(n, ok) =>
        if ok {
          assert f.got + f.copier.chunk + [] == f.got + f.copier.chunk;
        } else {
          var k := if n <= |f.copier.chunk| then n else |f.copier.chunk|;
          assert f.copier.chunk == f.copier.chunk[..k] + f.copier.chunk[k..];
          Regrouped(f.got, f.copier.chunk[..k], f.copier.chunk[k..]);
        }
      case ReadEnd =>
      case CloseTarget =>
    }
  }

  lemma {:induction false} Regrouped(a: seq<byte>, b: seq<byte>, c: seq<byte>)
    ensures a + b + c == a + (b + c) && a + [] + c == a + c
  {
  }

  lemma {:induction false} HappenKeeps(p: Pipe, e: Event, toB: seq<byte>, toA: seq<byte>)
    requires Inv(p) && Ledger(p.ab, toB) && Ledger(p.ba, toA)
    ensures var q := Happen(p, e);
            && Inv(q) && Ledger(q.ab, toB) && Ledger(q.ba, toA)
            && p.ab.got <= q.ab.got && p.ba.got <= q.ba.got
  {
    hide Ledger;
    ActKeepsLedger(p.ab, e.action, toB);
    ActKeepsLedger(p.ba, e.action, toA);
    ClosingKeepsLedger(p.ab, toB);
    ClosingKeepsLedger(p.ba, toA);
  }

  lemma {:induction false} ClosingKeepsLedger(f: Flow, all: seq<byte>)
    ensures Ledger(f.(open := false), all) <==> Ledger(f, all)
  {
  }

  lemma {:induction false} PlayKeeps(p: Pipe, es: seq<Event>, toB: seq<byte>, toA: seq<byte>)
    requires Inv(p) && Ledger(p.ab, toB) && Ledger(p.ba, toA)
    ensures var q := Play(p, es);
            && Inv(q) && Ledger(q.ab, toB) && Ledger(q.ba, toA)
            && p.ab.got <= q.ab.got && p.ba.got <= q.ba.got
    decreases es
  {
    hide Happen, Ledger, Inv;
    if es != [] {
      HappenKeeps(p, es[0], toB, toA);
      PlayKeeps(Happen(p, es[0]), es[1..], toB, toA);
    }
  }

  /** At the start nothing has moved and both connections are open. */
  ghost predicate Fresh(p: Pipe) {
    && p.ab == Flow(p.ab.buf, p.ab.net, true, Reading, []) && |p.ab.buf| <= COPY_SIZE
    && p.ba == Flow(p.ba.buf, p.ba.net, true, Reading, []) && |p.ba.buf| <= COPY_SIZE
  }

  lemma {:induction false} FreshLedger(p: Pipe)
    requires Fresh(p)
    ensures Inv(p) && Ledger(p.ab, p.ab.buf + p.ab.net) && Ledger(p.ba, p.ba.buf + p.ba.net)
  {
    hide Ledger;
    FreshFlowLedger(p.ab.buf, p.ab.net);
    FreshFlowLedger(p.ba.buf, p.ba.net);
  }

  lemma {:induction false} FreshFlowLedger(buf: seq<byte>, net: seq<byte>)
    ensures Ledger(Flow(buf, net, true, Reading, []), buf + net)
  {
    assert [] + [] + (buf + net) == buf + net;
  }

  /** In every interleaving what either side was given is an in-order prefix of what the other sent,
      counting what had been buffered; it is all of it if and only if all was read and no write failed. */
  lemma {:induction false} DeliveredInOrder(p: Pipe, es: seq<Event>)
    requires Fresh(p)
    ensures var q := Play(p, es);
            && q.ab.got <= p.ab.buf + p.ab.net && q.ba.got <= p.ba.buf + p.ba.net
            && (q.ab.got == p.ab.buf + p.ab.net <==> InHand(q.ab.copier) == [] && q.ab.buf == [] && q.ab.net == [])
            && (q.ba.got == p.ba.buf + p.ba.net <==> InHand(q.ba.copier) == [] && q.ba.buf == [] && q.ba.net == [])
  {
    hide Play, Ledger;
    var q := Play(p, es);
    FreshLedger(p);
    PlayKeeps(p, es, p.ab.buf + p.ab.net, p.ba.buf + p.ba.net);
    Parts(q.ab, p.ab.buf + p.ab.net);
    Parts(q.ba, p.ba.buf + p.ba.net);
  }

  lemma {:induction false} Parts(f: Flow, all: seq<byte>)
    requires Ledger(f, all)
    ensures f.got <= all
    ensures f.got == all <==> InHand(f.copier) == [] && f.buf == [] && f.net == []
  {
  }

  /** When both copies have ended, and the tunnel returns, both connections are closed; either one is
      closed only by the end of the copy that writes to it. */
  lemma {:induction false} ClosedExactlyAtTheEnd(p: Pipe, es: seq<Event>)
    requires Fresh(p)
    ensures var q := Play(p, es);
            && (q.ab.copier.Ended? <==> !q.ba.open)
            && (q.ba.copier.Ended? <==> !q.ab.open)
  {
    hide Play, Ledger;
    FreshLedger(p);
    PlayKeeps(p, es, p.ab.buf + p.ab.net, p.ba.buf + p.ba.net);
  }

  // ----- when one direction has ended -----

  /** The one chunk a copy may still move once its source is closed: the one in hand or, before the
      first read, what was buffered. */
  function LastChunk(f: Flow): seq<byte> {
    match f.copier
    case Reading => f.buf
    case Holding(chunk) => chunk
    case _ => []
  }

  /** Actions a copy can still take once its source is closed. */
  function LeftWhenClosed(f: Flow): nat {
    match f.copier
    case Reading => if f.buf == [] then 2 else 4
    case Holding(_) => 3
    case Closing(_) => 1
    case Ended(_) => 0
  }

  function Taken(p: Pipe, es: seq<Event>, toB: bool): nat
    decreases es
  {
    if es == [] then 0
    else
      var f := if toB then p.ab else p.ba;
      (if es[0].toB == toB && Act(f, es[0].action) != f then 1 else 0) + Taken(Happen(p, es[0]), es[1..], toB)
  }

  lemma {:induction false} ClosedAct(f: Flow, action: Action)
    requires Drained(f) && !f.open
    ensures var g := Act(f, action);
            && Drained(g) && !g.open
            && f.got <= g.got && g.got + LastChunk(g) <= f.got + LastChunk(f)
            && LeftWhenClosed(g) <= LeftWhenClosed(f)
            && (g != f ==> LeftWhenClosed(g) < LeftWhenClosed(f))
  {
  }

  /** After the copy from b to a has ended, the copy from a to b gives b at most the one chunk it holds
      or has buffered, and takes at most four more actions. */
  lemma {:induction false} OneMoreChunk(p: Pipe, es: seq<Event>)
    requires Inv(p) && p.ba.copier.Ended?
    ensures var q := Play(p, es);
            && p.ab.got <= q.ab.got <= p.ab.got + LastChunk(p.ab)
            && Taken(p, es, true) + LeftWhenClosed(q.ab) <= LeftWhenClosed(p.ab) <= 4
  {
    ClosedRun(p, es);
    var q := Play(p, es);
    assert q.ab.got <= q.ab.got + LastChunk(q.ab);
  }

  lemma {:induction false} ClosedRun(p: Pipe, es: seq<Event>)
    requires Inv(p) && p.ba.copier.Ended?
    ensures var q := Play(p, es);
            && p.ab.got <= q.ab.got && q.ab.got + LastChunk(q.ab) <= p.ab.got + LastChunk(p.ab)
            && Taken(p, es, true) + LeftWhenClosed(q.ab) <= LeftWhenClosed(p.ab)
    decreases es
  {
    if es != [] {
      ClosedAct(p.ab, es[0].action);
      var p' := Happen(p, es[0]);
      assert p'.ba.copier.Ended? && Inv(p');
      ClosedRun(p', es[1..]);
    }
  }

  /** The same for the other direction. */
  lemma {:induction false} OneMoreChunkBack(p: Pipe, es: seq<Event>)
    requires Inv(p) && p.ab.copier.Ended?
    ensures var q := Play(p, es);
            && p.ba.got <= q.ba.got <= p.ba.got + LastChunk(p.ba)
            && Taken(p, es, false) + LeftWhenClosed(q.ba) <= LeftWhenClosed(p.ba) <= 4
  {
    Mirrored(p, es);
    OneMoreChunk(Mirror(p), MirrorAll(es));
  }

  function Mirror(p: Pipe): Pipe {
    Pipe(p.ba, p.ab)
  }

  function MirrorAll(es: seq<Event>): (r: seq<Event>)
    ensures |r| == |es| && forall k :: 0 <= k < |es| ==> r[k] == es[k].(toB := !es[k].toB)
  {
    seq(|es|, k requires 0 <= k < |es| => es[k].(toB := !es[k].toB))
  }

  lemma {:induction false} Mirrored(p: Pipe, es: seq<Event>)
    ensures Play(Mirror(p), MirrorAll(es)) == Mirror(Play(p, es))
    ensures Taken(Mirror(p), MirrorAll(es), true) == Taken(p, es, false)
    decreases es
  {
    if es != [] {
      assert MirrorAll(es)[1..] == MirrorAll(es[1..]);
      assert Happen(Mirror(p), MirrorAll(es)[0]) == Mirror(Happen(p, es[0]));
      Mirrored(Happen(p, es[0]), es[1..]);
    }
  }

  /** A copy that has not ended can always act, so within those four actions it ends. */
  lemma {:induction false} CanAct(f: Flow) returns (action: Action)
    requires !f.copier.Ended?
    ensures Act(f, action) != f
  {
    match f.copier
    case Reading => action := if f.buf == [] then ReadEnd else Read(0);
    case Holding(_) => action := Write(0, true);
    case Closing(_) => action := CloseTarget;
  }

  // ----- nothing need be lost -----

  /** Moves what is buffered, or else the next bytes. */
  function MoveOne(f: Flow, toB: bool): seq<Event> {
    var n := if |f.net| <= COPY_SIZE then |f.net| else COPY_SIZE;
    [Event(toB, Read(n)), Event(toB, Write(0, true))]
  }

  lemma {:induction false} PlayTwo(p: Pipe, a: Event, b: Event, es: seq<Event>)
    ensures Play(p, [a, b] + es) == Play(Happen(Happen(p, a), b), es)
  {
    assert ([a, b] + es)[1..] == [b] + es && ([b] + es)[1..] == es;
  }

  /** From any state in which the copy to b has ended nothing and lost nothing, there is a run that gives
      b all that remains and leaves the other copy alone. */
  lemma {:induction false} CanDeliver(p: Pipe) returns (es: seq<Event>)
    requires p.ab.open && p.ab.copier.Reading? && |p.ab.buf| <= COPY_SIZE
    ensures Play(p, es) == Pipe(p.ab.(buf := [], net := [], got := p.ab.got + p.ab.buf + p.ab.net), p.ba)
    decreases |p.ab.buf| + |p.ab.net|
  {
    var f := p.ab;
    if f.buf == [] && f.net == [] {
      assert f.got + [] + [] == f.got;
      es := [];
    } else {
      var move := MoveOne(f, true);
      var q := Happen(Happen(p, move[0]), move[1]);
      var n := if |f.net| <= COPY_SIZE then |f.net| else COPY_SIZE;
      if f.buf != [] {
        assert f.buf[..|f.buf|] == f.buf && f.buf[|f.buf|..] == [];
        assert q == Pipe(f.(buf := [], got := f.got + f.buf), p.ba);
        assert f.got + f.buf + [] + f.net == f.got + f.buf + f.net;
      } else {
        assert q == Pipe(f.(net := f.net[n..], got := f.got + f.net[..n]), p.ba);
        assert f.net == f.net[..n] + f.net[n..];
        assert f.got + f.net[..n] + [] + f.net[n..] == f.got + [] + f.net;
      }
      var rest := CanDeliver(q);
      PlayTwo(p, move[0], move[1], rest);
      es := move + rest;
    }
  }

  /** There is a run of every tunnel that gives both sides all that the other sends. */
  lemma {:induction false} CanDeliverAll(p: Pipe) returns (es: seq<Event>)
    requires Fresh(p)
    ensures Play(p, es).ab.got == p.ab.buf + p.ab.net && Play(p, es).ba.got == p.ba.buf + p.ba.net
  {
    var there := CanDeliver(p);
    var q := Play(p, there);
    var back := CanDeliver(Mirror(q));
    Mirrored(Mirror(q), back);
    es := there + MirrorAll(back);
    PlayConcat(p, there, MirrorAll(back));
    assert Mirror(Mirror(q)) == q;
    assert [] + p.ab.buf + p.ab.net == p.ab.buf + p.ab.net && [] + p.ba.buf + p.ba.net == p.ba.buf + p.ba.net;
  }

  lemma {:induction false} PlayConcat(p: Pipe, es: seq<Event>, more: seq<Event>)
    ensures Play(p, es + more) == Play(Play(p, es), more)
    decreases es
  {
    if es == [] {
      assert [] + more == more;
    } else {
      assert (es + more)[1..] == es[1..] + more;
      PlayConcat(Happen(p, es[0]), es[1..], more);
    }
  }

  // ----- the operation -----

  class Conn {
    var buf: seq<byte>
    var net: seq<byte>
    var open: bool
    var got: seq<byte>

    constructor (buf: seq<byte>, net: seq<byte>)
      ensures this.buf == buf && this.net == net && open && got == []
    {
      this.buf, this.net, open, got := buf, net, true, [];
    }
  }

  function FlowOf(src: Conn, dst: Conn, copier: Copier): Flow
    reads src`buf, src`net, src`open, dst`got
  {
    Flow(src.buf, src.net, src.open, copier, dst.got)
  }

  /** Runs both copies, under an arbitrary scheduler, until both have ended; `es` is what happened. */
  method BiCopy(a: Conn, b: Conn) returns (ghost ab: Copier, ghost ba: Copier, ghost es: seq<Event>)
    requires a != b && a.open && b.open && |a.buf| <= COPY_SIZE && |b.buf| <= COPY_SIZE
    modifies a, b
    ensures Pipe(FlowOf(a, b, ab), FlowOf(b, a, ba))
         == Play(Pipe(old(FlowOf(a, b, Reading)), old(FlowOf(b, a, Reading))), es)
    ensures ab.Ended? && ba.Ended? && !a.open && !b.open
  {
    var toB, toA := Reading, Reading;
    ghost var start := Pipe(FlowOf(a, b, toB), FlowOf(b, a, toA));
    es := [];
    while !toB.Ended? || !toA.Ended?
      invariant Pipe(FlowOf(a, b, toB), FlowOf(b, a, toA)) == Play(start, es)
      invariant toB.Ended? <==> !b.open
      invariant toA.Ended? <==> !a.open
      decreases ActionsLeft(FlowOf(a, b, toB)) + ActionsLeft(FlowOf(b, a, toA))
    {
      var forward: bool := *;
      ghost var action;
      if !toB.Ended? && (forward || toA.Ended?) {
        toB, action := CopyStep(a, b, toB);
        PlayOneMore(start, es, Event(true, action));
        es := es + [Event(true, action)];
      } else {
        toA, action := CopyStep(b, a, toA);
        PlayOneMore(start, es, Event(false, action));
        es := es + [Event(false, action)];
      }
    }
    ab, ba := toB, toA;
  }

  /** The next step of one copy. */
  method CopyStep(src: Conn, dst: Conn, copier: Copier) returns (next: Copier, ghost action: Action)
    requires src != dst && !copier.Ended?
    modifies src`buf, src`net, dst`got, dst`open
    ensures FlowOf(src, dst, next) == Act(old(FlowOf(src, dst, copier)), action)
    ensures ActionsLeft(FlowOf(src, dst, next)) < ActionsLeft(old(FlowOf(src, dst, copier)))
    ensures dst.open == (old(dst.open) && !next.Ended?)
  {
    ghost var before := FlowOf(src, dst, copier);
    match copier {
      case Reading =>
        var n: nat := *;
        action := Read(n);
        if src.buf != [] {
          var k := if |src.buf| <= COPY_SIZE then |src.buf| else COPY_SIZE;
          next := Holding(src.buf[..k]);
          src.buf := src.buf[k..];
        } else if src.open && 0 < n <= |src.net| && n <= COPY_SIZE {
          next := Holding(src.net[..n]);
          src.net := src.net[n..];
        } else {
          next, action := Closing([]), ReadEnd;
        }
      case Holding(chunk) =>
        var n: nat, ok: bool := *, *;
        action := Write(n, ok);
        if ok {
          dst.got, next := dst.got + chunk, Reading;
        } else {
          var k := if n <= |chunk| then n else |chunk|;
          dst.got, next := dst.got + chunk[..k], Closing(chunk[k..]);
        }
      case Closing(lost) =>
        action := CloseTarget;
        dst.open, next := false, Ended(lost);
    }
  }

  function ActionsLeft(f: Flow): nat {
    4 * (|f.buf| + |f.net|) + match f.copier
                             case Reading => 3
                             case Holding(_) => 5
                             case Closing(_) => 1
                             case Ended(_) => 0
  }

  lemma {:induction false} PlayOneMore(p: Pipe, es: seq<Event>, e: Event)
    ensures Play(p, es + [e]) == Happen(Play(p, es), e)
    decreases es
  {
    if es == [] {
      assert Play(p, [e]) == Play(Happen(p, e), [e][1..]);
    } else {
      assert (es + [e])[1..] == es[1..] + [e];
      PlayOneMore(Happen(p, es[0]), es[1..], e);
    }
  }

  // ----- after the handshake -----

  /** What the handler leaves of the stream. */
  function Remaining(inp: seq<byte>, s: Session): seq<byte> {
    if s.used <= |inp| then inp[s.used..] else []
  }

  /** From the first byte of the connection to the upstream: the tunnel carries exactly what follows
      the handshake, in order from its first byte, and all of it if it is all read and written. */
  lemma {:induction false} TunnelCarriesTheRest(m: Message, rest: seq<byte>, p: Pipe, es: seq<Event>)
    requires m.WellFormed() && m.cmd == CONNECT && Fresh(p)
    requires p.ab.buf + p.ab.net == Remaining(Encode(m) + rest, Handshake(Encode(m) + rest, m.user, m.pass, true, true))
    ensures Handshake(Encode(m) + rest, m.user, m.pass, true, true).tunnel
    ensures var q := Play(p, es);
            && q.ab.got <= rest
            && (q.ab.got == rest <==> InHand(q.ab.copier) == [] && q.ab.buf == [] && q.ab.net == [])
  {
    hide Handshake, Encode;
    HandshakeReads(m, rest, true, true);
    assert (Encode(m) + rest)[|Encode(m)|..] == rest;
    DeliveredInOrder(p, es);
  }
}
