/** The SOCKS5 handshake (sections 3 to 6 of RFC 1928, section 2 of RFC 1929): a pure parser on one
    byte sequence, the messages it accepts, and the handler that reads a connection piece by piece. */
module Socks5 {
  import opened Text
  import opened Wire
  import opened HostPort

  datatype Address = IPv4(octets: seq<byte>) | Domain(name: seq<byte>) | IPv6(octets: seq<byte>) {
    predicate WellFormed() {
      match this
      case IPv4(o) => |o| == 4
      case Domain(n) => |n| <= 255
      case IPv6(o) => |o| == 16
    }
  }

  datatype Dest = Dest(addr: Address, port: nat)

  const USER_PASS: byte := 2
  const CONNECT: byte := 1
  const SUCCEEDED: byte := 0
  const GENERAL_FAILURE: byte := 1
  const COMMAND_NOT_SUPPORTED: byte := 7
  const ADDRESS_TYPE_NOT_SUPPORTED: byte := 8

  /** The answers to a greeting and to the right credentials. */
  const ACCEPTED: seq<byte> := [5, USER_PASS, 1, 0]

  /** One stage: whether the handshake goes on, what was written, how much was read. */
  datatype Step = Step(ok: bool, out: seq<byte>, used: nat)

  /** The whole handshake; `dial` is the destination that was dialled, if one was. */
  datatype Session = Session(out: seq<byte>, used: nat, dial: Option<Dest>, tunnel: bool)

  function Reply(code: byte): seq<byte> {
    [5, code, 0, 1, 0, 0, 0, 0, 0, 0]
  }

  predicate ContainsByte(bs: seq<byte>, v: byte) {
    exists i :: 0 <= i < |bs| && bs[i] == v
  }

  // ----- the pure parser; a stage that runs out of input has read all of it -----

  /** A length byte and as many bytes. */
  function Counted(inp: seq<byte>): Option<seq<byte>> {
    if |inp| < 1 || |inp| < 1 + Length(inp[0]) then None else Some(inp[1..1 + Length(inp[0])])
  }

  function Length(b: byte): nat {
    b as nat
  }

  function Negotiate(inp: seq<byte>): Step {
    if |inp| == 0 then Step(false, [], 0)
    else if inp[0] != 5 then Step(false, [], 1)
    else
      match Counted(inp[1..])
      case None => Step(false, [], |inp|)
      case Some(methods) =>
        if !ContainsByte(methods, USER_PASS) then Step(false, [5, 0xFF], 2 + |methods|)
        else Step(true, [5, USER_PASS], 2 + |methods|)
  }

  /** Two of them in a row. */
  function TwoCounted(inp: seq<byte>): Option<(seq<byte>, seq<byte>)> {
    match Counted(inp)
    case None => None
    case Some(a) =>
      match Counted(inp[1 + |a|..])
      case None => None
      case Some(b) => Some((a, b))
  }

  function Authenticate(inp: seq<byte>, user: seq<byte>, pass: seq<byte>): Step {
    if |inp| == 0 then Step(false, [], 0)
    else if inp[0] != 1 then Step(false, [], 1)
    else
      match TwoCounted(inp[1..])
      case None => Step(false, [], |inp|)
      case Some((uname, pwd)) =>
        var used := 3 + |uname| + |pwd|;
        if uname != user || pwd != pass then Step(false, [1, 1], used) else Step(true, [1, 0], used)
  }

  /** The address after its type byte, with its length on the wire; None if cut short or unknown. */
  function ReadAddress(atyp: byte, inp: seq<byte>): Option<(Address, nat)> {
    if atyp == 1 then
      if |inp| < 4 then None else Some((IPv4(inp[..4]), 4))
    else if atyp == 3 then
      match Counted(inp)
      case None => None
      case Some(name) => Some((Domain(name), 1 + |name|))
    else if atyp == 4 then
      if |inp| < 16 then None else Some((IPv6(inp[..16]), 16))
    else None
  }

  /** A request, unless it is cut short, starts with the wrong version, or has an unreadable address. */
  datatype Request = Cut | BadAddress | Request(cmd: byte, dest: Dest)

  /** The request and how much of the input was read for it. */
  function ReadRequest(inp: seq<byte>): (Request, nat) {
    if |inp| >= 1 && inp[0] != 5 then (Cut, 1)
    else if |inp| < 4 then (Cut, |inp|)
    else
      match ReadAddress(inp[3], inp[4..])
      case None => (BadAddress, if inp[3] in {1, 3, 4} then |inp| else 4)
      case Some((addr, n)) =>
        if |inp| < 4 + n + 2 then (Cut, |inp|)
        else (Request(inp[1], Dest(addr, Port(inp[4 + n], inp[5 + n]))), 4 + n + 2)
  }

  function Serve(inp: seq<byte>, hasExit: bool, dialOk: bool): Session {
    var (request, used) := ReadRequest(inp);
    match request
    case Cut => Session([], used, None, false)
    case BadAddress => Session(Reply(ADDRESS_TYPE_NOT_SUPPORTED), used, None, false)
    case Request(cmd, dest) => Decide(cmd, dest, hasExit, dialOk).(used := used)
  }

  /** What a complete request leads to. */
  function Decide(cmd: byte, dest: Dest, hasExit: bool, dialOk: bool): Session {
    if cmd != CONNECT then Session(Reply(COMMAND_NOT_SUPPORTED), 0, None, false)
    else if !hasExit then Session(Reply(GENERAL_FAILURE), 0, None, false)
    else Session(Reply(if dialOk then SUCCEEDED else GENERAL_FAILURE), 0, Some(dest), dialOk)
  }

  /** Big-endian, as on the wire. */
  function Port(hi: byte, lo: byte): nat {
    256 * Length(hi) + Length(lo)
  }

  /** Negotiation and authentication. */
  function Login(inp: seq<byte>, user: seq<byte>, pass: seq<byte>): Step {
    var g := Negotiate(inp);
    if !g.ok || g.used > |inp| then Step(false, g.out, g.used)
    else
      var a := Authenticate(inp[g.used..], user, pass);
      Step(a.ok, g.out + a.out, g.used + a.used)
  }

  function Handshake(inp: seq<byte>, user: seq<byte>, pass: seq<byte>, hasExit: bool, dialOk: bool): Session {
    var l := Login(inp, user, pass);
    if !l.ok || l.used > |inp| then Session(l.out, l.used, None, false)
    else
      var s := Serve(inp[l.used..], hasExit, dialOk);
      s.(out := l.out + s.out, used := l.used + s.used)
  }

  // ----- the messages -----

  datatype Message = Message(methods: seq<byte>, user: seq<byte>, pass: seq<byte>,
                             cmd: byte, rsv: byte, addr: Address, port: nat) {
    ghost predicate WellFormed() {
      && |methods| <= 255 && ContainsByte(methods, USER_PASS)
      && |user| <= 255 && |pass| <= 255 && addr.WellFormed() && port < 65536
    }
  }

  function EncodeCounted(bs: seq<byte>): seq<byte>
    requires |bs| <= 255
  {
    [|bs| as byte] + bs
  }

  function EncodeGreeting(methods: seq<byte>): seq<byte>
    requires |methods| <= 255
  {
    [5] + EncodeCounted(methods)
  }

  function EncodeAuth(user: seq<byte>, pass: seq<byte>): seq<byte>
    requires |user| <= 255 && |pass| <= 255
  {
    [1] + (EncodeCounted(user) + EncodeCounted(pass))
  }

  function EncodeAddress(addr: Address): seq<byte>
    requires addr.WellFormed()
  {
    match addr
    case IPv4(o) => [1] + o
    case Domain(n) => [3] + EncodeCounted(n)
    case IPv6(o) => [4] + o
  }

  function EncodeRequest(cmd: byte, rsv: byte, addr: Address, port: nat): seq<byte>
    requires addr.WellFormed() && port < 65536
  {
    [5, cmd, rsv] + EncodeAddress(addr) + PortText(port)
  }

  function PortText(port: nat): seq<byte>
    requires port < 65536
  {
    [(port / 256) as byte, (port % 256) as byte]
  }

  function Encode(m: Message): seq<byte>
    requires m.WellFormed()
  {
    EncodeGreeting(m.methods) + EncodeAuth(m.user, m.pass) + EncodeRequest(m.cmd, m.rsv, m.addr, m.port)
  }

  // ----- the parser reads exactly the messages -----

  lemma {:induction false} CountedReads(bs: seq<byte>, rest: seq<byte>)
    requires |bs| <= 255
    ensures Counted(EncodeCounted(bs) + rest) == Some(bs)
  {
  }

  lemma {:induction false} CountedExactly(inp: seq<byte>)
    requires Counted(inp).Some?
    ensures var bs := Counted(inp).value;
            |bs| <= 255 && 1 + |bs| <= |inp| && inp[..1 + |bs|] == EncodeCounted(bs)
  {
  }

  lemma {:induction false} NegotiateExactly(inp: seq<byte>)
    ensures Negotiate(inp).used <= |inp|
    ensures Negotiate(inp).ok ==>
              var n := Negotiate(inp).used;
              && 2 <= n <= |inp| && n - 2 <= 255 && ContainsByte(inp[2..n], USER_PASS)
              && inp[..n] == EncodeGreeting(inp[2..n])
  {
    if |inp| > 0 && Counted(inp[1..]).Some? {
      CountedExactly(inp[1..]);
      var n := 2 + |Counted(inp[1..]).value|;
      assert inp[..n] == [inp[0]] + inp[1..][..n - 1];
      assert inp[2..n] == Counted(inp[1..]).value;
    }
  }

  lemma {:induction false} NegotiateReads(methods: seq<byte>, rest: seq<byte>)
    requires |methods| <= 255 && ContainsByte(methods, USER_PASS)
    ensures Negotiate(EncodeGreeting(methods) + rest) == Step(true, [5, USER_PASS], 2 + |methods|)
  {
    var inp := EncodeGreeting(methods) + rest;
    CountedReads(methods, rest);
    assert inp[1..] == EncodeCounted(methods) + rest;
  }

  lemma {:induction false} TwoCountedExactly(inp: seq<byte>)
    requires TwoCounted(inp).Some?
    ensures var (a, b) := TwoCounted(inp).value;
            && |a| <= 255 && |b| <= 255 && 2 + |a| + |b| <= |inp|
            && inp[..2 + |a| + |b|] == EncodeCounted(a) + EncodeCounted(b)
  {
  }

  lemma {:induction false} TwoCountedReads(a: seq<byte>, b: seq<byte>, rest: seq<byte>)
    requires |a| <= 255 && |b| <= 255
    ensures TwoCounted(EncodeCounted(a) + (EncodeCounted(b) + rest)) == Some((a, b))
  {
  }

  lemma {:induction false} AuthenticateExactly(inp: seq<byte>, user: seq<byte>, pass: seq<byte>)
    ensures Authenticate(inp, user, pass).used <= |inp|
    ensures Authenticate(inp, user, pass).ok ==>
              var n := Authenticate(inp, user, pass).used;
              |user| <= 255 && |pass| <= 255 && inp[..n] == EncodeAuth(user, pass)
  {
    if |inp| > 0 && TwoCounted(inp[1..]).Some? {
      var (a, b) := TwoCounted(inp[1..]).value;
      TwoCountedExactly(inp[1..]);
      var n := 3 + |a| + |b|;
      assert inp[..n] == [inp[0]] + inp[1..][..n - 1];
    }
  }

  lemma {:induction false} AuthenticateReads(user: seq<byte>, pass: seq<byte>, rest: seq<byte>)
    requires |user| <= 255 && |pass| <= 255
    ensures Authenticate(EncodeAuth(user, pass) + rest, user, pass) == Step(true, [1, 0], 3 + |user| + |pass|)
  {
    var u, p := EncodeCounted(user), EncodeCounted(pass);
    var inp := EncodeAuth(user, pass) + rest;
    TwoCountedReads(user, pass, rest);
    assert inp[1..] == u + (p + rest) by { assert inp == [1] + (u + (p + rest)); }
  }

  lemma {:induction false} ReadAddressReads(addr: Address, rest: seq<byte>)
    requires addr.WellFormed()
    ensures var e := EncodeAddress(addr) + rest;
            ReadAddress(e[0], e[1..]) == Some((addr, |EncodeAddress(addr)| - 1))
  {
    match addr
    case IPv4(o) => OctetsRead(1, o, rest);
    case Domain(n) =>
      CountedReads(n, rest);
      assert [3] + EncodeCounted(n) + rest == [3] + (EncodeCounted(n) + rest);
    case IPv6(o) => OctetsRead(4, o, rest);
  }

  lemma {:induction false} OctetsRead(atyp: byte, o: seq<byte>, rest: seq<byte>)
    ensures ([atyp] + o + rest)[0] == atyp && ([atyp] + o + rest)[1..] == o + rest
    ensures (o + rest)[..|o|] == o
  {
  }

  lemma {:induction false} ReadAddressExactly(atyp: byte, inp: seq<byte>)
    ensures ReadAddress(atyp, inp).Some? ==>
              var (addr, n) := ReadAddress(atyp, inp).value;
              n <= |inp| && addr.WellFormed() && [atyp] + inp[..n] == EncodeAddress(addr)
  {
  }

  lemma {:induction false} RequestReads(cmd: byte, rsv: byte, addr: Address, port: nat, rest: seq<byte>)
    requires addr.WellFormed() && port < 65536
    ensures ReadRequest(EncodeRequest(cmd, rsv, addr, port) + rest)
         == (Request(cmd, Dest(addr, port)), |EncodeRequest(cmd, rsv, addr, port)|)
  {
    var e := EncodeAddress(addr);
    var tail := PortText(port) + rest;
    var inp := EncodeRequest(cmd, rsv, addr, port) + rest;
    assert inp == [5, cmd, rsv] + (e + tail);
    assert inp[3] == (e + tail)[0] && inp[4..] == (e + tail)[1..];
    ReadAddressReads(addr, tail);
    var n := |e| - 1;
    assert inp[4 + n] == tail[0] && inp[5 + n] == tail[1];
    assert Port(PortText(port)[0], PortText(port)[1]) == port;
  }

  lemma {:induction false} RequestExactly(inp: seq<byte>)
    ensures ReadRequest(inp).1 <= |inp|
    ensures ReadRequest(inp).0.Request? ==>
              var (r, used) := ReadRequest(inp);
              && r.dest.addr.WellFormed() && r.dest.port < 65536 && used >= 4
              && inp[..used] == EncodeRequest(r.cmd, inp[2], r.dest.addr, r.dest.port)
  {
    if |inp| >= 4 && ReadAddress(inp[3], inp[4..]).Some? {
      var (addr, n) := ReadAddress(inp[3], inp[4..]).value;
      ReadAddressExactly(inp[3], inp[4..]);
      if |inp| >= 4 + n + 2 {
        PortBytes(inp[4 + n], inp[5 + n]);
        RequestPieces(inp, n);
      }
    }
  }

  lemma {:induction false} RequestPieces(inp: seq<byte>, n: nat)
    requires 4 + n + 2 <= |inp|
    ensures inp[..4 + n + 2] == [inp[0], inp[1], inp[2]] + ([inp[3]] + inp[4..][..n]) + [inp[4 + n], inp[5 + n]]
  {
  }

  lemma {:induction false} PortBytes(hi: byte, lo: byte)
    ensures Port(hi, lo) < 65536 && PortText(Port(hi, lo)) == [hi, lo]
  {
  }

  /** What the client has been sent when a request was answered with this code: method 2 chosen,
      credentials accepted, and the ten bytes of a reply with address 0.0.0.0 and port 0. */
  ghost function AcceptedThen(code: byte): seq<byte> {
    [5, 2, 1, 0, 5, code, 0, 1, 0, 0, 0, 0, 0, 0]
  }

  lemma {:induction false} RepliesAre(code: byte)
    ensures ACCEPTED + Reply(code) == AcceptedThen(code) && ACCEPTED == [5, 2, 1, 0]
  {
  }

  lemma {:induction false} LoginReads(methods: seq<byte>, user: seq<byte>, pass: seq<byte>, rest: seq<byte>)
    requires |methods| <= 255 && ContainsByte(methods, USER_PASS) && |user| <= 255 && |pass| <= 255
    ensures var g, a := EncodeGreeting(methods), EncodeAuth(user, pass);
            Login(g + (a + rest), user, pass) == Step(true, ACCEPTED, |g + a|)
  {
    var g, a := EncodeGreeting(methods), EncodeAuth(user, pass);
    NegotiateReads(methods, a + rest);
    AuthenticateReads(user, pass, rest);
    assert (g + (a + rest))[|g|..] == a + rest;
  }

  lemma {:induction false} LoginExactly(inp: seq<byte>, user: seq<byte>, pass: seq<byte>)
    ensures var l := Login(inp, user, pass);
            && l.used <= |inp|
            && (l.ok ==> l.out == ACCEPTED && |user| <= 255 && |pass| <= 255)
            && (!l.ok ==> l.out in {[], [5, 0xFF], [5, USER_PASS], [5, USER_PASS, 1, 1]})
  {
    var g := Negotiate(inp);
    NegotiateExactly(inp);
    if g.ok {
      var a := Authenticate(inp[g.used..], user, pass);
      AuthenticateExactly(inp[g.used..], user, pass);
      assert g.out + a.out == [5, USER_PASS] || g.out + a.out == [5, USER_PASS, 1, 1] || g.out + a.out == ACCEPTED;
    }
  }

  lemma {:induction false} LoginMeansMessages(inp: seq<byte>, user: seq<byte>, pass: seq<byte>) returns (methods: seq<byte>)
    requires Login(inp, user, pass).ok
    ensures |methods| <= 255 && ContainsByte(methods, USER_PASS) && |user| <= 255 && |pass| <= 255
    ensures Login(inp, user, pass).used <= |inp|
    ensures inp[..Login(inp, user, pass).used] == EncodeGreeting(methods) + EncodeAuth(user, pass)
  {
    var g := Negotiate(inp);
    NegotiateExactly(inp);
    AuthenticateExactly(inp[g.used..], user, pass);
    var a := Authenticate(inp[g.used..], user, pass);
    methods := inp[2..g.used];
    assert inp[..g.used + a.used] == inp[..g.used] + inp[g.used..][..a.used];
  }

  /** Round trip: a well-formed message with the right credentials, followed by anything, is read
      back to the same destination, exactly its bytes are consumed, and the rest is left. */
  lemma {:induction false} HandshakeReads(m: Message, rest: seq<byte>, hasExit: bool, dialOk: bool)
    requires m.WellFormed()
    ensures var s := Handshake(Encode(m) + rest, m.user, m.pass, hasExit, dialOk);
            && s.used == |Encode(m)|
            && s.dial == (if m.cmd == 1 && hasExit then Some(Dest(m.addr, m.port)) else None)
            && s.tunnel == (m.cmd == 1 && hasExit && dialOk)
            && s.out == AcceptedThen(if m.cmd != 1 then 7 else if hasExit && dialOk then 0 else 1)
  {
    var g, a, r := EncodeGreeting(m.methods), EncodeAuth(m.user, m.pass), EncodeRequest(m.cmd, m.rsv, m.addr, m.port);
    RepliesAre(if m.cmd != 1 then 7 else if hasExit && dialOk then 0 else 1);
    LoginReads(m.methods, m.user, m.pass, r + rest);
    RequestReads(m.cmd, m.rsv, m.addr, m.port, rest);
    Regroup(g, a, r, rest);
    assert (g + (a + (r + rest)))[|g + a|..] == r + rest;
  }

  lemma {:induction false} Regroup(g: seq<byte>, a: seq<byte>, r: seq<byte>, x: seq<byte>)
    ensures g + a + r + x == g + (a + (r + x))
    ensures (g + (a + (r + x)))[|g|..] == a + (r + x)
    ensures (a + (r + x))[|a|..] == r + x
  {
  }

  /** Conversely a dial means that the bytes read were a message with the configured credentials. */
  lemma {:induction false} DialMeansMessage(inp: seq<byte>, user: seq<byte>, pass: seq<byte>, hasExit: bool, dialOk: bool)
      returns (m: Message)
    requires Handshake(inp, user, pass, hasExit, dialOk).dial.Some?
    ensures var s := Handshake(inp, user, pass, hasExit, dialOk);
            && hasExit && m.WellFormed() && m.user == user && m.pass == pass && m.cmd == CONNECT
            && s.dial == Some(Dest(m.addr, m.port)) && s.used <= |inp| && inp[..s.used] == Encode(m)
  {
    hide Login, ReadRequest;
    var methods := LoginMeansMessages(inp, user, pass);
    var l := Login(inp, user, pass);
    var last := inp[l.used..];
    RequestExactly(last);
    var (r, used) := ReadRequest(last);
    m := Message(methods, user, pass, CONNECT, last[2], r.dest.addr, r.dest.port);
    assert inp[..l.used + used] == inp[..l.used] + last[..used];
  }

  ghost predicate Begins(inp: seq<byte>, m: Message) {
    m.WellFormed() && Encode(m) <= inp
  }

  /** So for every byte stream the handler dials if and only if there is an exit and the stream
      begins with a CONNECT message carrying the configured credentials. */
  lemma {:induction false} DialsExactly(inp: seq<byte>, user: seq<byte>, pass: seq<byte>,
                                        hasExit: bool, dialOk: bool, d: Dest)
    ensures Handshake(inp, user, pass, hasExit, dialOk).dial == Some(d) <==>
              hasExit && exists m :: Begins(inp, m) && m.user == user && m.pass == pass && m.cmd == CONNECT
                                     && d == Dest(m.addr, m.port)
  {
    if Handshake(inp, user, pass, hasExit, dialOk).dial == Some(d) {
      var m := DialMeansMessage(inp, user, pass, hasExit, dialOk);
      assert Begins(inp, m);
    }
    if m :| hasExit && Begins(inp, m) && m.user == user && m.pass == pass && m.cmd == CONNECT && d == Dest(m.addr, m.port) {
      assert inp == Encode(m) + inp[|Encode(m)|..];
      HandshakeReads(m, inp[|Encode(m)|..], hasExit, dialOk);
    }
  }

  /** No proper prefix of a handshake causes a dial. */
  lemma {:induction false} PrefixNeverDials(m: Message, cut: seq<byte>, user: seq<byte>, pass: seq<byte>,
                                            hasExit: bool, dialOk: bool)
    requires m.WellFormed() && cut < Encode(m)
    ensures Handshake(cut, user, pass, hasExit, dialOk).dial.None?
  {
    if Handshake(cut, user, pass, hasExit, dialOk).dial.Some? {
      var m' := DialMeansMessage(cut, user, pass, hasExit, dialOk);
      MessagesArePrefixFree(m', m);
    }
  }

  lemma {:induction false} MessagesArePrefixFree(m: Message, m': Message)
    requires m.WellFormed() && m'.WellFormed() && Encode(m) <= Encode(m')
    ensures |Encode(m)| == |Encode(m')|
  {
    hide Handshake, Encode;
    var e := Encode(m');
    var x := e[|Encode(m)|..];
    assert e == Encode(m) + x && e == e + [];
    SameCredentials(m, x, m', []);
    HandshakeReads(m, x, true, true);
    HandshakeReads(m', [], true, true);
  }

  /** A byte stream carries one pair of credentials. */
  lemma {:induction false} SameCredentials(m: Message, x: seq<byte>, m': Message, x': seq<byte>)
    requires m.WellFormed() && m'.WellFormed() && Encode(m) + x == Encode(m') + x'
    ensures m.user == m'.user && m.pass == m'.pass
  {
    var e := Encode(m) + x;
    var n, rest := AfterGreeting(m, x);
    var n', rest' := AfterGreeting(m', x');
    assert n == n' && rest == rest';
    AuthenticateReads(m.user, m.pass, EncodeRequest(m.cmd, m.rsv, m.addr, m.port) + x);
    AuthenticateReads(m'.user, m'.pass, EncodeRequest(m'.cmd, m'.rsv, m'.addr, m'.port) + x');
    OnlyOnePair(rest, m.user, m.pass, m'.user, m'.pass);
  }

  lemma {:induction false} AfterGreeting(m: Message, x: seq<byte>) returns (n: nat, rest: seq<byte>)
    requires m.WellFormed()
    ensures var e := Encode(m) + x;
            && n == Negotiate(e).used <= |e| && rest == e[n..]
            && rest == EncodeAuth(m.user, m.pass) + (EncodeRequest(m.cmd, m.rsv, m.addr, m.port) + x)
  {
    var g, a, r := EncodeGreeting(m.methods), EncodeAuth(m.user, m.pass), EncodeRequest(m.cmd, m.rsv, m.addr, m.port);
    NegotiateReads(m.methods, a + (r + x));
    Regroup(g, a, r, x);
    n, rest := |g|, a + (r + x);
  }

  lemma {:induction false} OnlyOnePair(inp: seq<byte>, u: seq<byte>, p: seq<byte>, u': seq<byte>, p': seq<byte>)
    requires Authenticate(inp, u, p).ok && Authenticate(inp, u', p').ok
    ensures u == u' && p == p'
  {
  }

  /** The messages are those of the standards, byte by byte. */
  lemma {:induction false} MessagesAreStandard(m: Message)
    requires m.WellFormed()
    ensures Encode(m) == [5, |m.methods| as byte] + m.methods
                         + [1, |m.user| as byte] + m.user + [|m.pass| as byte] + m.pass
                         + [5, m.cmd, m.rsv] + (match m.addr
                                                case IPv4(o) => [1] + o
                                                case Domain(n) => [3, |n| as byte] + n
                                                case IPv6(o) => [4] + o)
                         + [(m.port / 256) as byte, (m.port % 256) as byte]
  {
    var a := EncodeAddress(m.addr);
    assert a == match m.addr
                case IPv4(o) => [1] + o
                case Domain(n) => [3, |n| as byte] + n
                case IPv6(o) => [4] + o;
    AuthIsStandard(m.user, m.pass);
    assert EncodeGreeting(m.methods) == [5, |m.methods| as byte] + m.methods;
  }

  lemma {:induction false} AuthIsStandard(user: seq<byte>, pass: seq<byte>)
    requires |user| <= 255 && |pass| <= 255
    ensures EncodeAuth(user, pass) == [1, |user| as byte] + user + [|pass| as byte] + pass
  {
  }

  // ----- what is refused -----

  /** The handshake came to nothing after writing `out` and reading `used` bytes. */
  ghost predicate Ends(s: Session, out: seq<byte>, used: nat) {
    s.out == out && s.used == used && s.dial.None? && !s.tunnel
  }

  /** Another version, and a greeting that does not offer user and password. */
  lemma {:induction false} GreetingRefused(methods: seq<byte>, inp: seq<byte>, user: seq<byte>, pass: seq<byte>,
                                           hasExit: bool, dialOk: bool)
    ensures inp != [] && inp[0] != 5 ==> Ends(Handshake(inp, user, pass, hasExit, dialOk), [], 1)
    ensures |methods| <= 255 && EncodeGreeting(methods) <= inp && (forall k :: 0 <= k < |methods| ==> methods[k] != 2) ==>
              Ends(Handshake(inp, user, pass, hasExit, dialOk), [5, 0xFF], |EncodeGreeting(methods)|)
  {
    if |methods| <= 255 && EncodeGreeting(methods) <= inp {
      var rest := inp[|EncodeGreeting(methods)|..];
      CountedReads(methods, rest);
      assert inp == [5] + (EncodeCounted(methods) + rest);
    }
  }

  /** After a good greeting: another version of the authentication, and other credentials. */
  lemma {:induction false} LoginRefused(methods: seq<byte>, u: seq<byte>, p: seq<byte>, rest: seq<byte>,
                                        user: seq<byte>, pass: seq<byte>, hasExit: bool, dialOk: bool)
    requires |methods| <= 255 && ContainsByte(methods, 2)
    ensures var g := EncodeGreeting(methods);
            rest != [] && rest[0] != 1 ==> Ends(Handshake(g + rest, user, pass, hasExit, dialOk), [5, 2], |g| + 1)
    ensures |u| <= 255 && |p| <= 255 && (u != user || p != pass) ==>
              var g, a := EncodeGreeting(methods), EncodeAuth(u, p);
              Ends(Handshake(g + (a + rest), user, pass, hasExit, dialOk), [5, 2, 1, 1], |g| + |a|)
  {
    hide Negotiate, TwoCounted;
    var g := EncodeGreeting(methods);
    NegotiateReads(methods, rest);
    assert (g + rest)[|g|..] == rest;
    if |u| <= 255 && |p| <= 255 {
      var a := EncodeAuth(u, p);
      NegotiateReads(methods, a + rest);
      assert (g + (a + rest))[|g|..] == a + rest;
      TwoCountedReads(u, p, rest);
      assert (a + rest)[0] == 1 && (a + rest)[1..] == EncodeCounted(u) + (EncodeCounted(p) + rest);
    }
    assert [5, USER_PASS] + [1, 1] == [5, 2, 1, 1] && [5, USER_PASS] + [] == [5, 2];
  }

  /** The bytes of an address of this type are not all there. */
  ghost predicate CutShort(atyp: byte, rest: seq<byte>) {
    (atyp == 1 && |rest| < 4) || (atyp == 4 && |rest| < 16)
    || (atyp == 3 && (rest == [] || |rest| < 1 + rest[0] as nat))
  }

  /** After a good login: another version, an unknown address type, and an address cut short. */
  lemma {:induction false} RequestRefused(methods: seq<byte>, user: seq<byte>, pass: seq<byte>, cmd: byte, rsv: byte,
                                          atyp: byte, rest: seq<byte>, hasExit: bool, dialOk: bool)
    requires |methods| <= 255 && ContainsByte(methods, 2) && |user| <= 255 && |pass| <= 255
    ensures var g, a := EncodeGreeting(methods), EncodeAuth(user, pass);
            && (rest != [] && rest[0] != 5 ==>
                  Ends(Handshake(g + (a + rest), user, pass, hasExit, dialOk), [5, 2, 1, 0], |g| + |a| + 1))
            && (atyp !in {1, 3, 4} ==>
                  Ends(Handshake(g + (a + ([5, cmd, rsv, atyp] + rest)), user, pass, hasExit, dialOk),
                       AcceptedThen(8), |g| + |a| + 4))
            && (CutShort(atyp, rest) ==>
                  Ends(Handshake(g + (a + ([5, cmd, rsv, atyp] + rest)), user, pass, hasExit, dialOk),
                       AcceptedThen(8), |g| + |a| + 4 + |rest|))
  {
    var request := [5, cmd, rsv, atyp] + rest;
    AfterLogin(methods, user, pass, rest, hasExit, dialOk);
    AfterLogin(methods, user, pass, request, hasExit, dialOk);
    BadRequests(cmd, rsv, atyp, rest);
    RepliesAre(8);
    hide Handshake, ReadRequest;
    assert ACCEPTED + [] == [5, 2, 1, 0];
  }

  lemma {:induction false} AfterLogin(methods: seq<byte>, user: seq<byte>, pass: seq<byte>, rest: seq<byte>,
                                      hasExit: bool, dialOk: bool)
    requires |methods| <= 255 && ContainsByte(methods, 2) && |user| <= 255 && |pass| <= 255
    ensures var g, a := EncodeGreeting(methods), EncodeAuth(user, pass);
            var s := Serve(rest, hasExit, dialOk);
            Handshake(g + (a + rest), user, pass, hasExit, dialOk)
              == s.(out := ACCEPTED + s.out, used := |g| + |a| + s.used)
  {
    hide Login, Serve;
    LoginReads(methods, user, pass, rest);
    var g, a := EncodeGreeting(methods), EncodeAuth(user, pass);
    assert g + (a + rest) == (g + a) + rest && ((g + a) + rest)[|g + a|..] == rest;
  }

  lemma {:induction false} BadRequests(cmd: byte, rsv: byte, atyp: byte, rest: seq<byte>)
    ensures rest != [] && rest[0] != 5 ==> ReadRequest(rest) == (Cut, 1)
    ensures atyp !in {1, 3, 4} ==> ReadRequest([5, cmd, rsv, atyp] + rest) == (BadAddress, 4)
    ensures CutShort(atyp, rest) ==> ReadRequest([5, cmd, rsv, atyp] + rest) == (BadAddress, 4 + |rest|)
  {
    var request := [5, cmd, rsv, atyp] + rest;
    assert request[4..] == rest;
  }

  // ----- what the client sees -----

  ghost predicate LegalReply(code: byte) {
    code in {SUCCEEDED, GENERAL_FAILURE, COMMAND_NOT_SUPPORTED, ADDRESS_TYPE_NOT_SUPPORTED}
  }

  /** The output is one of the legal scripts, with at most one ten-byte reply; success is reported
      exactly when the tunnel opens, and a dial only follows accepted credentials. */
  lemma {:induction false} OutputIsLegal(inp: seq<byte>, user: seq<byte>, pass: seq<byte>, hasExit: bool, dialOk: bool)
    ensures var s := Handshake(inp, user, pass, hasExit, dialOk);
            && (s.out in {[], [5, 0xFF], [5, 2], [5, 2, 1, 1], [5, 2, 1, 0]}
                || exists code :: code in {0, 1, 7, 8} && s.out == AcceptedThen(code))
            && (s.tunnel <==> s.out == AcceptedThen(0))
            && (s.tunnel ==> s.dial.Some?) && (s.dial.Some? ==> [5, 2, 1, 0] < s.out)
            && s.used <= |inp|
  {
    RepliesAre(0);
    var l := Login(inp, user, pass);
    LoginExactly(inp, user, pass);
    assert |ACCEPTED + Reply(SUCCEEDED)| == 14;
    if l.ok {
      var s := Serve(inp[l.used..], hasExit, dialOk);
      ServeIsLegal(inp[l.used..], hasExit, dialOk);
      AfterAccepted(s.out);
      if s.out != [] {
        var code :| LegalReply(code) && s.out == Reply(code);
        RepliesAre(code);
        assert code in {0, 1, 7, 8} && ACCEPTED + s.out == AcceptedThen(code);
      }
    }
  }

  lemma {:induction false} AfterAccepted(out: seq<byte>)
    ensures ACCEPTED + out == ACCEPTED + Reply(SUCCEEDED) <==> out == Reply(SUCCEEDED)
    ensures ACCEPTED + [] == ACCEPTED
    ensures out != [] ==> ACCEPTED < ACCEPTED + out
  {
    assert (ACCEPTED + out)[4..] == out && (ACCEPTED + Reply(SUCCEEDED))[4..] == Reply(SUCCEEDED);
  }

  lemma {:induction false} ServeIsLegal(inp: seq<byte>, hasExit: bool, dialOk: bool)
    ensures var s := Serve(inp, hasExit, dialOk);
            && (s.out == [] || exists code :: LegalReply(code) && s.out == Reply(code))
            && (s.tunnel <==> s.out == Reply(SUCCEEDED))
            && (s.tunnel ==> s.dial.Some?) && (s.dial.Some? ==> s.out != [])
            && s.used <= |inp|
  {
  }
}
