/** One accepted connection: its exit is pinned at once, the first byte chooses the protocol, and the
    settings are read after that. Rotation and settings updates go on meanwhile, so both are given as
    functions of time. */
module Server {
  import opened Text
  import opened Wire
  import opened Socks5
  import opened Socks5Server
  import opened HttpProxy
  import opened Upstreams
  import opened Rotation

  datatype Outcome =
    | Nothing
    | Socks(dialled: Option<Dialled>, tunnel: bool)
    | Http(trace: seq<seq<HttpEvent>>)

  /** The upstreams a connection was served through. */
  ghost predicate OnlyVia(o: Outcome, snap: ExitSnapshot) {
    match o
    case Nothing => true
    case Socks(dialled, _) => dialled.Some? ==> IsExit(dialled.value.via, snap)
    case Http(trace) =>
      forall k, i :: 0 <= k < |trace| && 0 <= i < |trace[k]| && IsDial(trace[k][i]) ==> IsExit(trace[k][i].via, snap)
  }

  /** Peeking loses nothing: a stream that starts with version 5 is handled as a SOCKS5 stream from its
      first byte. Whatever is dialled is dialled through the exit of the moment of accepting it, though
      others may be published before the handshake is over. */
  method HandleConn(c: BufferedConn, exits: nat -> ExitSnapshot, credentials: nat -> (seq<byte>, seq<byte>),
                    accepted: nat, looked: nat, ip6: seq<byte> -> string, dialOk: bool,
                    requests: seq<HttpProxy.Request>, luck: nat -> Luck)
      returns (outcome: Outcome, ghost sent: seq<byte>)
    requires c.Valid()
    modifies c
    ensures c.Valid() && OnlyVia(outcome, exits(accepted))
    ensures outcome.Nothing? <==> old(c.Stream()) == []
    ensures outcome.Socks? <==> old(c.Stream()) != [] && old(c.Stream())[0] == 5
    ensures outcome.Socks? ==>
              var (user, pass) := credentials(looked);
              var s := Handshake(old(c.Stream()), user, pass, exits(accepted).exit.Some?, dialOk);
              && Served(old(c.Stream()), old(c.out), s, outcome.tunnel, c.Stream(), c.out)
              && DialsFor(outcome.dialled, Pinned(exits(accepted)), s.dial, ip6)
              && (outcome.dialled.Some? ==> sent == old(c.out) + [5, 2, 1, 0])
    ensures outcome.Http? ==>
              var (user, pass) := credentials(looked);
              InOrder(requests, luck, Pinned(exits(accepted)), user, pass, outcome.trace)
  {
    hide Handshake, Served, InOrder, LeadsTo;
    var upstream := Pinned(exits(accepted));
    sent := [];
    var ok, first := c.Peek();
    if !ok {
      return Nothing, sent;
    }
    var (user, pass) := credentials(looked);
    if first == 5 {
      var dialled, tunnel;
      dialled, tunnel, sent := HandleSocks5(c, upstream, user, pass, ip6, dialOk);
      return Socks(dialled, tunnel), sent;
    }
    var trace := HandleHTTP(requests, luck, upstream, user, pass);
    forall k, i | 0 <= k < |trace| && 0 <= i < |trace[k]| && IsDial(trace[k][i])
      ensures IsExit(trace[k][i].via, exits(accepted))
    {
      NoDialWithoutCredentials(requests, luck, upstream, user, pass, trace, k);
    }
    return Http(trace), sent;
  }
}
