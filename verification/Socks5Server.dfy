/** The SOCKS5 handler: it reads the connection piece by piece, answers and dials, and does exactly
    what the pure parser says for the whole stream. */
module Socks5Server {
  import opened Text
  import opened HostPort
  import opened Wire
  import opened Socks5
  import opened Upstreams

  function Chars(bs: seq<byte>): (s: string)
    ensures |s| == |bs| && forall k :: 0 <= k < |s| ==> s[k] as int == bs[k] as int
  {
    seq(|bs|, k requires 0 <= k < |bs| => bs[k] as char)
  }

  /** How a destination host is written; `ip6` renders IPv6 addresses. */
  function HostText(addr: Address, ip6: seq<byte> -> string): string
    requires addr.WellFormed()
  {
    match addr
    case IPv4(o) => Itoa(o[0] as int) + "." + Itoa(o[1] as int) + "." + Itoa(o[2] as int) + "." + Itoa(o[3] as int)
    case Domain(n) => Chars(n)
    case IPv6(o) => ip6(o)
  }

  function DestText(d: Dest, ip6: seq<byte> -> string): string
    requires d.addr.WellFormed()
  {
    JoinHostPort(HostText(d.addr, ip6), Itoa(d.port))
  }

  /** The host names the address: four decimal parts for the four octets, the bytes of the name, or
      the rendering of the IPv6 address. */
  ghost predicate NamesHost(host: string, addr: Address, ip6: seq<byte> -> string) {
    match addr
    case IPv4(o) =>
      exists a, b, c, d ::
        && host == a + "." + b + "." + c + "." + d
        && Octet(a, o, 0) && Octet(b, o, 1) && Octet(c, o, 2) && Octet(d, o, 3)
    case Domain(n) => |host| == |n| && forall k :: 0 <= k < |n| ==> host[k] as int == n[k] as int
    case IPv6(o) => host == ip6(o)
  }

  /** The text is a decimal number, without a dot, of the k-th octet. */
  ghost predicate Octet(text: string, o: seq<byte>, k: nat) {
    k < |o| && Free(text, '.') && AllDigits(text) && Atoi(text) == Some(o[k] as int)
  }

  /** The text leads to the destination: it is its host and its port number, joined so that it splits
      back into them; only a host with a bracket of its own is joined past recognition. */
  ghost predicate LeadsTo(text: string, d: Dest, ip6: seq<byte> -> string) {
    exists host, port ::
      && NamesHost(host, d.addr, ip6) && AllDigits(port) && Atoi(port) == Some(d.port)
      && text == (if Free(host, ':') then host + ":" + port else "[" + host + "]:" + port)
      && (NoBrackets(host) ==> SplitHostPort(text) == Some(HostAndPort(host, port)))
  }

  lemma {:induction false} OctetText(o: seq<byte>, k: nat)
    requires k < |o|
    ensures Octet(Itoa(o[k] as int), o, k)
  {
    AtoiInvertsItoa(o[k] as int);
  }

  lemma {:induction false} HostTextNames(addr: Address, ip6: seq<byte> -> string)
    requires addr.WellFormed()
    ensures NamesHost(HostText(addr, ip6), addr, ip6)
  {
    hide Itoa, Atoi, Octet;
    if addr.IPv4? {
      var o := addr.octets;
      OctetText(o, 0);
      OctetText(o, 1);
      OctetText(o, 2);
      OctetText(o, 3);
    }
  }

  lemma {:induction false} DestTextLeads(d: Dest, ip6: seq<byte> -> string)
    requires d.addr.WellFormed() && d.port < 65536
    ensures LeadsTo(DestText(d, ip6), d, ip6)
  {
    hide Itoa, Atoi, NamesHost, SplitHostPort, HostText;
    var host, port := HostText(d.addr, ip6), Itoa(d.port);
    HostTextNames(d.addr, ip6);
    AtoiInvertsItoa(d.port);
    DigitsAreClean(d.port);
    SplitInvertsJoin(host, port);
    assert NamesHost(host, d.addr, ip6) && AllDigits(port) && Atoi(port) == Some(d.port);
  }

  /** The text that is dialled splits back into exactly the requested host and port, unless the host
      has a bracket in it. */
  lemma {:induction false} DestTextKeepsDest(d: Dest, ip6: seq<byte> -> string)
    requires d.addr.WellFormed()
    ensures SplitHostPort(DestText(d, ip6)) == Some(HostAndPort(HostText(d.addr, ip6), Itoa(d.port)))
       <==> NoBrackets(HostText(d.addr, ip6))
    ensures NamesHost(HostText(d.addr, ip6), d.addr, ip6)
    ensures d.addr.IPv4? ==> NoBrackets(HostText(d.addr, ip6))
  {
    hide NamesHost;
    HostTextNames(d.addr, ip6);
    SplitInvertsJoin(HostText(d.addr, ip6), Itoa(d.port));
    DigitsAreClean(d.port);
    if d.addr.IPv4? {
      OctetsAreClean(d.addr.octets);
    }
  }

  lemma {:induction false} OctetsAreClean(o: seq<byte>)
    requires |o| == 4
    ensures NoBrackets(Itoa(o[0] as int) + "." + Itoa(o[1] as int) + "." + Itoa(o[2] as int) + "." + Itoa(o[3] as int))
  {
  }

  lemma {:induction false} DigitsAreClean(n: nat)
    ensures NoBrackets(Itoa(n)) && Free(Itoa(n), ':') && AllDigits(Itoa(n))
  {
  }

  // ----- the SOCKS5 handler -----

  method FindByte(bs: seq<byte>, v: byte) returns (found: bool)
    ensures found <==> ContainsByte(bs, v)
  {
    for k := 0 to |bs|
      invariant !ContainsByte(bs[..k], v)
    {
      if bs[k] == v {
        return true;
      }
      assert bs[..k + 1] == bs[..k] + [bs[k]];
    }
    assert bs[..|bs|] == bs;
    return false;
  }

  /** A stage of the handler did what the stage of the pure parser says: it wrote that much and left
      the rest of the stream. */
  ghost predicate Took(inp: seq<byte>, out: seq<byte>, step: Step, ok: bool, inp': seq<byte>, out': seq<byte>) {
    ok == step.ok && out' == out + step.out && step.used <= |inp| && inp' == inp[step.used..]
  }

  method ReadCounted(c: BufferedConn) returns (ok: bool, bs: seq<byte>)
    requires c.Valid()
    modifies c`buf, c`chunks
    ensures c.Valid()
    ensures ok <==> Counted(old(c.Stream())).Some?
    ensures ok ==> 1 + |bs| <= |old(c.Stream())| && Counted(old(c.Stream())) == Some(bs)
    ensures c.Stream() == if ok then old(c.Stream())[1 + |bs|..] else []
  {
    ghost var inp := c.Stream();
    var length;
    ok, length := c.ReadByte();
    if !ok {
      return false, [];
    }
    ok, bs := c.ReadFull(Length(length));
    if ok {
      Slices(inp, 1, Length(length));
    }
  }

  method ReadTwoCounted(c: BufferedConn) returns (ok: bool, a: seq<byte>, b: seq<byte>)
    requires c.Valid()
    modifies c`buf, c`chunks
    ensures c.Valid()
    ensures ok <==> TwoCounted(old(c.Stream())).Some?
    ensures ok ==> 2 + |a| + |b| <= |old(c.Stream())| && TwoCounted(old(c.Stream())) == Some((a, b))
    ensures c.Stream() == if ok then old(c.Stream())[2 + |a| + |b|..] else []
  {
    hide Counted;
    ghost var inp := c.Stream();
    b := [];
    ok, a := ReadCounted(c);
    if !ok {
      return;
    }
    ok, b := ReadCounted(c);
    if ok {
      Slices(inp, 1 + |a|, 1 + |b|);
    }
  }

  method NegotiateOn(c: BufferedConn) returns (ok: bool)
    requires c.Valid()
    modifies c
    ensures c.Valid()
    ensures Took(old(c.Stream()), old(c.out), Negotiate(old(c.Stream())), ok, c.Stream(), c.out)
  {
    ghost var inp := c.Stream();
    var got, ver := c.ReadByte();
    if !got || ver != 5 {
      return false;
    }
    var methods;
    got, methods := ReadCounted(c);
    if !got {
      return false;
    }
    Slices(inp, 1, 1 + |methods|);
    var offered := FindByte(methods, USER_PASS);
    if !offered {
      c.Write([5, 0xFF]);
      return false;
    }
    c.Write([5, USER_PASS]);
    return true;
  }

  method AuthenticateOn(c: BufferedConn, user: seq<byte>, pass: seq<byte>) returns (ok: bool)
    requires c.Valid()
    modifies c
    ensures c.Valid()
    ensures Took(old(c.Stream()), old(c.out), Authenticate(old(c.Stream()), user, pass), ok, c.Stream(), c.out)
  {
    hide TwoCounted;
    ghost var inp := c.Stream();
    var got, ver := c.ReadByte();
    if !got || ver != 1 {
      return false;
    }
    var uname, pwd;
    got, uname, pwd := ReadTwoCounted(c);
    if !got {
      return false;
    }
    Slices(inp, 1, 2 + |uname| + |pwd|);
    if uname != user || pwd != pass {
      c.Write([1, 1]);
      return false;
    }
    c.Write([1, 0]);
    return true;
  }

  /** A read that fails part way has used up the stream. */
  method ReadSocksAddr(c: BufferedConn, atyp: byte) returns (addr: Option<Address>)
    requires c.Valid()
    modifies c`buf, c`chunks
    ensures c.Valid()
    ensures match ReadAddress(atyp, old(c.Stream()))
            case Some((a, n)) => addr == Some(a) && n <= |old(c.Stream())| && c.Stream() == old(c.Stream())[n..]
            case None => addr == None && c.Stream() == if atyp in {1, 3, 4} then [] else old(c.Stream())
  {
    var ok, bytes;
    if atyp == 1 {
      ok, bytes := c.ReadFull(4);
      addr := if ok then Some(IPv4(bytes)) else None;
    } else if atyp == 3 {
      ok, bytes := ReadCounted(c);
      addr := if ok then Some(Domain(bytes)) else None;
    } else if atyp == 4 {
      ok, bytes := c.ReadFull(16);
      addr := if ok then Some(IPv6(bytes)) else None;
    } else {
      addr := None;
    }
  }

  method ReadUint16(c: BufferedConn) returns (ok: bool, n: nat)
    requires c.Valid()
    modifies c`buf, c`chunks
    ensures c.Valid()
    ensures ok <==> |old(c.Stream())| >= 2
    ensures ok ==> n == Port(old(c.Stream())[0], old(c.Stream())[1]) && c.Stream() == old(c.Stream())[2..]
    ensures !ok ==> c.Stream() == []
  {
    var bytes;
    ok, bytes := c.ReadFull(2);
    n := if ok then Port(bytes[0], bytes[1]) else 0;
  }

  /** The dial is the one that the session calls for: through the exit, to a text that leads to its
      destination. */
  ghost predicate DialsFor(dialled: Option<Dialled>, exit: Option<Upstream>, dial: Option<Dest>, ip6: seq<byte> -> string) {
    && (dialled.Some? <==> dial.Some?)
    && (dialled.Some? ==> exit == Some(dialled.value.via) && LeadsTo(dialled.value.dest, dial.value, ip6))
  }

  /** What the handler should have done with the stream. */
  ghost predicate Served(inp: seq<byte>, out: seq<byte>, s: Session, tunnel: bool, inp': seq<byte>, out': seq<byte>) {
    tunnel == s.tunnel && out' == out + s.out && s.used <= |inp| && inp' == inp[s.used..]
  }

  method ReadHeader(c: BufferedConn) returns (ok: bool, cmd: byte, atyp: byte)
    requires c.Valid()
    modifies c`buf, c`chunks
    ensures c.Valid()
    ensures var s := old(c.Stream());
            && (ok <==> |s| >= 4 && s[0] == 5)
            && (ok ==> cmd == s[1] && atyp == s[3] && c.Stream() == s[4..])
            && (!ok ==> c.Stream() == if |s| >= 1 && s[0] != 5 then s[1..] else [])
  {
    ghost var inp := c.Stream();
    var ver;
    cmd, atyp := 0, 0;
    ok, ver := c.ReadByte();
    if !ok || ver != 5 {
      return false, 0, 0;
    }
    ok, cmd := c.ReadByte();
    if !ok {
      return;
    }
    Slices(inp, 1, 1);
    var rsv;
    ok, rsv := c.ReadByte();
    if !ok {
      return;
    }
    Slices(inp, 2, 1);
    ok, atyp := c.ReadByte();
    if ok {
      Slices(inp, 3, 1);
    }
  }

  method ReadRequestOn(c: BufferedConn) returns (request: Request)
    requires c.Valid()
    modifies c`buf, c`chunks
    ensures c.Valid()
    ensures var (r, used) := ReadRequest(old(c.Stream()));
            request == r && used <= |old(c.Stream())| && c.Stream() == old(c.Stream())[used..]
  {
    ghost var inp := c.Stream();
    var ok, cmd, atyp := ReadHeader(c);
    if !ok {
      return Cut;
    }
    ReadAddressExactly(inp[3], inp[4..]);
    var addr := ReadSocksAddr(c, atyp);
    if addr.None? {
      return BadAddress;
    }
    ghost var n := ReadAddress(inp[3], inp[4..]).value.1;
    Slices(inp, 4, n);
    var port;
    ok, port := ReadUint16(c);
    if !ok {
      return Cut;
    }
    Slices(inp, 4 + n, 2);
    return Request(cmd, Dest(addr.value, port));
  }

  /** `sent` is what had been written when the dial was made. */
  method ServeOn(c: BufferedConn, exit: Option<Upstream>, ip6: seq<byte> -> string, dialOk: bool)
      returns (dialled: Option<Dialled>, tunnel: bool, ghost sent: seq<byte>)
    requires c.Valid()
    modifies c
    ensures c.Valid()
    ensures var s := Serve(old(c.Stream()), exit.Some?, dialOk);
            && Served(old(c.Stream()), old(c.out), s, tunnel, c.Stream(), c.out)
            && DialsFor(dialled, exit, s.dial, ip6)
    ensures sent == old(c.out)
  {
    hide LeadsTo, DestText;
    RequestExactly(c.Stream());
    dialled, tunnel, sent := None, false, c.out;
    var request := ReadRequestOn(c);
    if request.Cut? {
      return;
    }
    if request.BadAddress? {
      c.Write(Reply(ADDRESS_TYPE_NOT_SUPPORTED));
      return;
    }
    if request.cmd != CONNECT {
      c.Write(Reply(COMMAND_NOT_SUPPORTED));
      return;
    }
    if exit.None? {
      c.Write(Reply(GENERAL_FAILURE));
      return;
    }
    dialled, sent := Some(Dialled(exit.value, DestText(request.dest, ip6))), c.out;
    DestTextLeads(request.dest, ip6);
    if !dialOk {
      c.Write(Reply(GENERAL_FAILURE));
      return;
    }
    c.Write(Reply(SUCCEEDED));
    tunnel := true;
  }

  method LoginOn(c: BufferedConn, user: seq<byte>, pass: seq<byte>) returns (ok: bool)
    requires c.Valid()
    modifies c
    ensures c.Valid()
    ensures Took(old(c.Stream()), old(c.out), Login(old(c.Stream()), user, pass), ok, c.Stream(), c.out)
  {
    ok := NegotiateOn(c);
    ghost var inp, out := c.Stream(), c.out;
    if ok {
      ok := AuthenticateOn(c, user, pass);
    }
    LoginSteps(old(c.Stream()), old(c.out), user, pass, inp, out, ok, c.Stream(), c.out);
  }

  lemma {:induction false} LoginSteps(inp: seq<byte>, out: seq<byte>, user: seq<byte>, pass: seq<byte>,
                                      inp1: seq<byte>, out1: seq<byte>, ok: bool, inp2: seq<byte>, out2: seq<byte>)
    requires Took(inp, out, Negotiate(inp), Negotiate(inp).ok, inp1, out1)
    requires Negotiate(inp).ok ==> Took(inp1, out1, Authenticate(inp1, user, pass), ok, inp2, out2)
    requires !Negotiate(inp).ok ==> !ok && inp2 == inp1 && out2 == out1
    ensures Took(inp, out, Login(inp, user, pass), ok, inp2, out2)
  {
    hide Negotiate, Authenticate;
    var g := Negotiate(inp);
    if g.ok {
      var a := Authenticate(inp1, user, pass);
      Slices(inp, g.used, a.used);
      assert (out + g.out) + a.out == out + (g.out + a.out);
    }
  }

  /** The whole handshake, from a stream that arrives in any pieces: what is written, dialled and left
      for the tunnel is what the pure parser says, and a dial is only made after the credentials were
      accepted and answered. */
  method HandleSocks5(c: BufferedConn, exit: Option<Upstream>, user: seq<byte>, pass: seq<byte>,
                      ip6: seq<byte> -> string, dialOk: bool)
      returns (dialled: Option<Dialled>, tunnel: bool, ghost sent: seq<byte>)
    requires c.Valid()
    modifies c
    ensures c.Valid()
    ensures var s := Handshake(old(c.Stream()), user, pass, exit.Some?, dialOk);
            && Served(old(c.Stream()), old(c.out), s, tunnel, c.Stream(), c.out)
            && DialsFor(dialled, exit, s.dial, ip6)
    ensures dialled.Some? ==> sent == old(c.out) + [5, 2, 1, 0]
  {
    dialled, tunnel, sent := None, false, c.out;
    var ok := LoginOn(c, user, pass);
    ghost var inp, out := c.Stream(), c.out;
    if ok {
      dialled, tunnel, sent := ServeOn(c, exit, ip6, dialOk);
    }
    HandshakeSteps(old(c.Stream()), old(c.out), user, pass, exit, ip6, dialOk, inp, out, dialled, tunnel, c.Stream(), c.out);
  }

  lemma {:induction false} HandshakeSteps(inp: seq<byte>, out: seq<byte>, user: seq<byte>, pass: seq<byte>,
                                          exit: Option<Upstream>, ip6: seq<byte> -> string, dialOk: bool,
                                          inp1: seq<byte>, out1: seq<byte>, dialled: Option<Dialled>, tunnel: bool,
                                          inp2: seq<byte>, out2: seq<byte>)
    requires Took(inp, out, Login(inp, user, pass), Login(inp, user, pass).ok, inp1, out1)
    requires Login(inp, user, pass).ok ==>
               && Served(inp1, out1, Serve(inp1, exit.Some?, dialOk), tunnel, inp2, out2)
               && DialsFor(dialled, exit, Serve(inp1, exit.Some?, dialOk).dial, ip6)
    requires !Login(inp, user, pass).ok ==> dialled == None && !tunnel && inp2 == inp1 && out2 == out1
    ensures var s := Handshake(inp, user, pass, exit.Some?, dialOk);
            Served(inp, out, s, tunnel, inp2, out2) && DialsFor(dialled, exit, s.dial, ip6)
    ensures dialled.Some? ==> out1 == out + [5, 2, 1, 0]
  {
    hide Login, Serve, LeadsTo;
    LoginExactly(inp, user, pass);
    var l := Login(inp, user, pass);
    if l.ok {
      var s := Serve(inp1, exit.Some?, dialOk);
      Slices(inp, l.used, s.used);
      assert (out + l.out) + s.out == out + (l.out + s.out);
    }
  }
}
