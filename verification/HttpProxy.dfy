/** The HTTP side of the proxy, as events: requests on one connection are checked, dialled for and
    answered one after another until one ends the connection. */
module HttpProxy {
  import opened Text
  import opened HostPort
  import opened Wire
  import opened Upstreams
  import opened Credentials

  /** The parts of a request that decide what happens to it. */
  datatype Request = Request(auth: string, verb: string, host: string, urlHost: string, scheme: string, closes: bool)

  /** How dialling, sending and waiting for the answer will go, and whether the answer closes. */
  datatype Luck = Luck(dials: bool, sends: bool, answers: bool, closes: bool)

  datatype HttpEvent =
    | Refused                             // 407
    | NoUpstream                          // 503
    | BadGateway                          // 502
    | DialThrough(via: Upstream, dest: string)
    | DialUpstream(via: Upstream, address: string)
    | Established                         // 200, then a tunnel
    | Relayed                             // the answer was passed on

  // ----- what should happen -----

  /** A plain request to an http URL is handed as it is to an upstream that speaks HTTP. */
  ghost predicate HandedOn(r: Request, via: Upstream) {
    && !EqualFold(r.verb, "CONNECT")
    && (r.scheme == "" || EqualFold(r.scheme, "http"))
    && (via.protocol == "http" || via.protocol == "https")
  }

  /** The host that is asked for, and the port if the host names none. */
  ghost function Asked(r: Request): (string, nat) {
    if EqualFold(r.verb, "CONNECT") then (r.host, 443)
    else (if r.urlHost != "" then r.urlHost else r.host, if EqualFold(r.scheme, "https") then 443 else 80)
  }

  /** A request without the credentials is refused; one with them is dialled for once, through the
      exit, if there is one, and told how that went. */
  ghost predicate Rightly(r: Request, luck: Luck, exit: Option<Upstream>, user: seq<byte>, pass: seq<byte>,
                          events: seq<HttpEvent>) {
    if !Carries(r.auth, user, pass) then events == [Refused]
    else if exit.None? then events == [NoUpstream]
    else
      && |events| == 2
      && events[0] == (if HandedOn(r, exit.value)
                       then DialUpstream(exit.value, exit.value.ip + ":" + Itoa(exit.value.port))
                       else DialThrough(exit.value, NormalizeHostPort(Asked(r).0, Asked(r).1)))
      && events[1] == (if !luck.dials then BadGateway
                       else if EqualFold(r.verb, "CONNECT") then Established
                       else if luck.sends && luck.answers then Relayed else BadGateway)
  }

  /** Only an answer that was passed on, and closes nothing, lets the connection go on. */
  ghost predicate GoesOn(r: Request, luck: Luck, events: seq<HttpEvent>) {
    Relayed in events && !r.closes && !luck.closes
  }

  /** The requests are answered rightly, in order, up to the first that does not go on. */
  ghost predicate InOrder(rs: seq<Request>, luck: nat -> Luck, exit: Option<Upstream>, user: seq<byte>, pass: seq<byte>,
                          trace: seq<seq<HttpEvent>>) {
    && |trace| <= |rs| && (rs != [] ==> trace != [])
    && forall k :: 0 <= k < |trace| ==>
         && Rightly(rs[k], luck(k), exit, user, pass, trace[k])
         && (k + 1 < |trace| <==> k + 1 < |rs| && GoesOn(rs[k], luck(k), trace[k]))
  }

  // ----- the handlers -----

  /** The request loop. */
  method HandleHTTP(rs: seq<Request>, luck: nat -> Luck, exit: Option<Upstream>, user: seq<byte>, pass: seq<byte>)
      returns (trace: seq<seq<HttpEvent>>)
    ensures InOrder(rs, luck, exit, user, pass, trace)
  {
    hide Rightly, GoesOn;
    trace := [];
    var k := 0;
    while k < |rs|
      invariant 0 <= k == |trace| <= |rs|
      invariant forall j :: 0 <= j < k ==>
                  Rightly(rs[j], luck(j), exit, user, pass, trace[j]) && GoesOn(rs[j], luck(j), trace[j])
    {
      var events, again := HandleRequest(rs[k], luck(k), exit, user, pass);
      trace := trace + [events];
      if !again {
        return;
      }
      k := k + 1;
    }
  }

  method HandleRequest(r: Request, luck: Luck, exit: Option<Upstream>, user: seq<byte>, pass: seq<byte>)
      returns (events: seq<HttpEvent>, again: bool)
    ensures Rightly(r, luck, exit, user, pass, events)
    ensures again <==> GoesOn(r, luck, events)
  {
    hide CheckHTTPProxyAuth, Carries, NormalizeHostPort, EqualFold, Itoa;
    AcceptedExactly(r.auth, user, pass);
    if !CheckHTTPProxyAuth(r.auth, user, pass) {
      return [Refused], false;
    }
    if EqualFold(r.verb, "CONNECT") {
      var dest := NormalizeHostPort(r.host, 443);
      if exit.None? {
        return [NoUpstream], false;
      }
      events := [DialThrough(exit.value, dest)];
      if !luck.dials {
        return events + [BadGateway], false;
      }
      return events + [Established], false;
    }
    HttpIsNotHttps();
    var host := if r.urlHost == "" then r.host else r.urlHost;
    var scheme := if r.scheme == "" then "http" else r.scheme;
    var dest := NormalizeHostPort(host, if EqualFold(scheme, "https") then 443 else 80);
    if exit.None? {
      return [NoUpstream], false;
    }
    if EqualFold(scheme, "http") && (exit.value.protocol == "http" || exit.value.protocol == "https") {
      events := [DialUpstream(exit.value, exit.value.Address())];
    } else {
      events := [DialThrough(exit.value, dest)];
    }
    if !luck.dials || !luck.sends || !luck.answers {
      return events + [BadGateway], false;
    }
    events := events + [Relayed];
    assert events[1] == Relayed;
    return events, !r.closes && !luck.closes;
  }

  lemma {:induction false} HttpIsNotHttps()
    ensures EqualFold("http", "http") && !EqualFold("http", "https") && !EqualFold("", "https")
  {
    assert |ToLower("https")| == 5 && |ToLower("http")| == 4 && |ToLower("")| == 0;
  }

  // ----- what follows -----

  predicate IsDial(e: HttpEvent) {
    e.DialThrough? || e.DialUpstream?
  }

  /** On every connection: a request is refused exactly if it does not carry the credentials; it is
      dialled for at most once, only with them, and only towards the pinned exit; and nothing follows
      a refusal, a failure or a tunnel. */
  lemma {:induction false} NoDialWithoutCredentials(rs: seq<Request>, luck: nat -> Luck, exit: Option<Upstream>,
                                                    user: seq<byte>, pass: seq<byte>, trace: seq<seq<HttpEvent>>, k: nat)
    requires InOrder(rs, luck, exit, user, pass, trace) && k < |trace|
    ensures Refused in trace[k] <==> !Carries(rs[k].auth, user, pass)
    ensures forall i :: 0 <= i < |trace[k]| && IsDial(trace[k][i]) ==>
              i == 0 && Carries(rs[k].auth, user, pass) && exit == Some(trace[k][i].via)
    ensures k + 1 < |trace| ==> |trace[k]| == 2 && trace[k][1] == Relayed
  {
    hide Carries, NormalizeHostPort, EqualFold, Itoa;
    assert Rightly(rs[k], luck(k), exit, user, pass, trace[k]);
    assert forall e :: e in trace[k] ==> exists i :: 0 <= i < |trace[k]| && trace[k][i] == e;
    assert trace[k][0] in trace[k];
  }

  /** A request whose header is missing or blank, is a single word, or names another scheme than Basic
      gets one refusal, is not dialled for and ends the connection. */
  lemma {:induction false} StrangersAreRefused(rs: seq<Request>, luck: nat -> Luck, exit: Option<Upstream>,
                                               user: seq<byte>, pass: seq<byte>, trace: seq<seq<HttpEvent>>, k: nat,
                                               word: string, rest: string)
    requires InOrder(rs, luck, exit, user, pass, trace) && k < |trace|
    requires || IsBlank(rs[k].auth) || Free(TrimSpace(rs[k].auth), ' ')
             || (TrimSpace(rs[k].auth) == word + " " + rest && Free(word, ' ') && !EqualFold(word, "Basic"))
    ensures trace[k] == [Refused] && |trace| == k + 1
  {
    hide Carries, NormalizeHostPort, EqualFold, Itoa, TrimSpace, IsBlank, Free;
    OthersAreNotAccepted(rs[k].auth, user, pass);
    assert Rightly(rs[k], luck(k), exit, user, pass, trace[k]);
  }

  /** A host written in any of the usual ways is dialled as exactly that host and port, or the scheme's
      own port if it names none. */
  lemma {:induction false} DialsWhatIsAsked(r: Request, luck: Luck, exit: Option<Upstream>, user: seq<byte>, pass: seq<byte>,
                                            events: seq<HttpEvent>, a: Authority)
    requires Rightly(r, luck, exit, user, pass, events) && events != [] && events[0].DialThrough?
    requires a.WellFormed() && Asked(r).0 == a.Text()
    ensures SplitHostPort(events[0].dest) == Some(a.Meaning(Asked(r).1))
  {
    hide Carries, NormalizeHostPort, EqualFold, Itoa, SplitHostPort;
    NormalizeKeepsMeaning(a, Asked(r).1, 0);
  }
}
