/** Addresses as text: Go's `net.SplitHostPort` and `net.JoinHostPort`, the pool's address parser
    and printer, and the proxy's destination normaliser. */
module HostPort {
  import opened Text

  datatype HostAndPort = HostAndPort(host: string, port: string)

  /** `net.SplitHostPort`; None stands for any of its errors. */
  function SplitHostPort(hostport: string): Option<HostAndPort> {
    var i := LastIndexOf(hostport, ':');
    if i < 0 then None
    else if hostport[0] == '[' then
      var end := IndexOf(hostport, ']');
      if end < 0 || end + 1 != i then None
      else if !Free(hostport[1..], '[') || !Free(hostport[end + 1..], ']') then None
      else Some(HostAndPort(hostport[1..end], hostport[i + 1..]))
    else if !Free(hostport[..i], ':') then None
    else if !NoBrackets(hostport) then None
    else Some(HostAndPort(hostport[..i], hostport[i + 1..]))
  }

  /** `net.JoinHostPort`. */
  function JoinHostPort(host: string, port: string): string {
    if !Free(host, ':') then "[" + host + "]:" + port else host + ":" + port
  }

  predicate NoBrackets(s: string) {
    Free(s, '[') && Free(s, ']')
  }

  lemma {:induction false} FirstAt(s: string, c: char, i: nat)
    requires i < |s| && s[i] == c && forall k :: 0 <= k < i ==> s[k] != c
    ensures IndexOf(s, c) == i
  {
  }

  lemma {:induction false} LastAt(s: string, c: char, i: nat)
    requires i < |s| && s[i] == c && forall k :: i < k < |s| ==> s[k] != c
    ensures LastIndexOf(s, c) == i
  {
  }

  /** Exactly the pairs that survive joining and splitting: the brackets and the last colon
      must be the separators' own. */
  lemma {:induction false} SplitInvertsJoin(h: string, p: string)
    ensures SplitHostPort(JoinHostPort(h, p)) == Some(HostAndPort(h, p))
       <==> NoBrackets(h) && NoBrackets(p) && Free(p, ':')
  {
    if NoBrackets(h) && NoBrackets(p) && Free(p, ':') {
      if !Free(h, ':') { SplitBracketed(h, p); } else { SplitPlain(h, p); }
    }
    if SplitHostPort(JoinHostPort(h, p)) == Some(HostAndPort(h, p)) {
      SplitIsClean(JoinHostPort(h, p));
    }
  }

  /** Exactly what splits: a host and a port between the separators, without any other bracket, and
      with a colon only in a bracketed host. */
  lemma {:induction false} SplitsExactly(s: string, h: string, p: string)
    ensures SplitHostPort(s) == Some(HostAndPort(h, p)) <==>
              && NoBrackets(h) && NoBrackets(p) && Free(p, ':')
              && ((s == h + ":" + p && Free(h, ':')) || s == "[" + h + "]:" + p)
  {
    if SplitHostPort(s) == Some(HostAndPort(h, p)) {
      SplitIsClean(s);
      SplitJoins(s);
    } else if NoBrackets(h) && NoBrackets(p) && Free(p, ':') {
      SplitBracketed(h, p);
      if Free(h, ':') {
        SplitPlain(h, p);
      }
    }
  }

  lemma {:induction false} SplitJoins(s: string)
    requires SplitHostPort(s).Some?
    ensures var HostAndPort(h, p) := SplitHostPort(s).value;
            (s == h + ":" + p && Free(h, ':')) || s == "[" + h + "]:" + p
  {
    var i := LastIndexOf(s, ':');
    if s[0] == '[' {
      assert s == [s[0]] + s[1..i - 1] + [s[i - 1]] + [s[i]] + s[i + 1..];
    } else {
      assert s == s[..i] + [s[i]] + s[i + 1..];
    }
  }

  lemma {:induction false} SplitPlain(h: string, p: string)
    requires NoBrackets(h) && NoBrackets(p) && Free(p, ':') && Free(h, ':')
    ensures SplitHostPort(h + ":" + p) == Some(HostAndPort(h, p))
  {
    var s := h + ":" + p;
    LastAt(s, ':', |h|);
    assert s[..|h|] == h && s[|h| + 1..] == p;
  }

  lemma {:induction false} SplitBracketed(h: string, p: string)
    requires NoBrackets(h) && NoBrackets(p) && Free(p, ':')
    ensures SplitHostPort("[" + h + "]:" + p) == Some(HostAndPort(h, p))
  {
    var s, n := "[" + h + "]:" + p, |h|;
    BracketedSeparators(h, p);
    BracketedParts(h, p);
    assert s[1..n + 1] == h && s[n + 3..] == p;
  }

  lemma {:induction false} BracketedSeparators(h: string, p: string)
    requires NoBrackets(h) && Free(p, ':')
    ensures LastIndexOf("[" + h + "]:" + p, ':') == |h| + 2
    ensures IndexOf("[" + h + "]:" + p, ']') == |h| + 1
  {
    var s, n := "[" + h + "]:" + p, |h|;
    assert forall k :: 1 <= k < n + 1 ==> s[k] == h[k - 1];
    LastAt(s, ':', n + 2);
    FirstAt(s, ']', n + 1);
  }

  lemma {:induction false} BracketedParts(h: string, p: string)
    requires NoBrackets(h) && NoBrackets(p)
    ensures Free(("[" + h + "]:" + p)[1..], '[')
    ensures Free(("[" + h + "]:" + p)[|h| + 2..], ']')
  {
  }

  lemma {:induction false} SplitIsClean(s: string)
    requires SplitHostPort(s).Some?
    ensures NoBrackets(SplitHostPort(s).value.host)
    ensures NoBrackets(SplitHostPort(s).value.port) && Free(SplitHostPort(s).value.port, ':')
  {
    var HostAndPort(h, p) := SplitHostPort(s).value;
    var i := LastIndexOf(s, ':');
    assert p == s[i + 1..];
    if s[0] == '[' {
      assert h == s[1..][..i - 2] && p == s[1..][i..] && p == s[i..][1..];
      assert Free(h, ']') by { assert forall k :: 0 <= k < |h| ==> h[k] == s[1 + k]; }
    }
  }

  // ----- pool addresses (internal/pool/parse.go, internal/pool/model.go) -----

  datatype AddressError = EmptyAddress | NoPort | BadPort | EmptyHost

  /** Splits at the standard separator, or else at the last colon if it has text on both sides. */
  function SplitLeniently(v: string): Option<HostAndPort> {
    match SplitHostPort(v)
    case Some(hp) => Some(hp)
    case None =>
      var i := LastIndexOf(v, ':');
      if i <= 0 || i >= |v| - 1 then None else Some(HostAndPort(v[..i], v[i + 1..]))
  }

  function ParseIPPort(raw: string): Result<(string, int), AddressError> {
    var v := TrimSpace(raw);
    if v == "" then Err(EmptyAddress)
    else match SplitLeniently(v)
      case None => Err(NoPort)
      case Some(HostAndPort(h, p)) =>
        var port := Atoi(p);
        if port.None? || port.value <= 0 || port.value > 65535 then Err(BadPort)
        else
          var host := Trim(h, BRACKETS);
          if IsBlank(host) then Err(EmptyHost) else Ok((host, port.value))
  }

  /** A host that is not blank once its outer brackets are gone, and a port number in range. */
  predicate ReadAs(h: string, p: string, host: string, port: int) {
    Trim(h, BRACKETS) == host && !IsBlank(host) && Atoi(p) == Some(port) && 1 <= port <= 65535
  }

  /** Which addresses are read: those on the two sides of the last colon. The standard split decides
      nothing more. */
  lemma {:induction false} ParsesAtLastColon(raw: string, host: string, port: int)
    ensures var v := TrimSpace(raw);
            var i := LastIndexOf(v, ':');
            ParseIPPort(raw) == Ok((host, port)) <==> i >= 0 && ReadAs(v[..i], v[i + 1..], host, port)
  {
    hide TrimSpace, ReadAs, LastIndexOf;
    ParsesWhatSplits(raw, host, port);
    LenientAtLastColon(TrimSpace(raw), host, port);
  }

  lemma {:induction false} ParsesWhatSplits(raw: string, host: string, port: int)
    ensures var s := SplitLeniently(TrimSpace(raw));
            ParseIPPort(raw) == Ok((host, port)) <==> s.Some? && ReadAs(s.value.host, s.value.port, host, port)
  {
    hide TrimSpace, SplitLeniently, Trim, Atoi, IsBlank;
    assert SplitLeniently("").None? by { NothingSplits(); }
  }

  lemma {:induction false} NothingSplits()
    ensures SplitLeniently("").None?
  {
  }

  lemma {:induction false} LenientAtLastColon(v: string, host: string, port: int)
    ensures var s, i := SplitLeniently(v), LastIndexOf(v, ':');
            (s.Some? && ReadAs(s.value.host, s.value.port, host, port)) <==>
              (i >= 0 && ReadAs(v[..i], v[i + 1..], host, port))
  {
    hide Trim, SplitHostPort, LastIndexOf, ReadAs;
    var i := LastIndexOf(v, ':');
    if SplitHostPort(v).Some? {
      SplitsAtLastColon(v);
      ReadThroughTrim(SplitHostPort(v).value.host, v[..i], v[i + 1..], host, port);
    } else if i == 0 {
      assert v[..i] == "";
      EmptyIsNotRead(v[i + 1..], host, port);
    } else if 0 < i == |v| - 1 {
      assert v[i + 1..] == "";
      EmptyIsNotRead(v[..i], host, port);
    }
  }

  lemma {:induction false} ReadThroughTrim(h: string, h': string, p: string, host: string, port: int)
    requires Trim(h, BRACKETS) == Trim(h', BRACKETS)
    ensures ReadAs(h, p, host, port) <==> ReadAs(h', p, host, port)
  {
    hide Trim, Atoi, IsBlank;
  }

  lemma {:induction false} EmptyIsNotRead(s: string, host: string, port: int)
    ensures !ReadAs("", s, host, port) && !ReadAs(s, "", host, port)
  {
    hide Trim, Atoi, IsBlank;
    assert Atoi("").None? && Trim("", BRACKETS) == "" && IsBlank("") by { EmptyHasNoNumber(); }
  }

  lemma {:induction false} EmptyHasNoNumber()
    ensures Atoi("").None? && Trim("", BRACKETS) == "" && IsBlank("")
  {
  }

  lemma {:induction false} SplitsAtLastColon(v: string)
    requires SplitHostPort(v).Some?
    ensures var i, hp := LastIndexOf(v, ':'), SplitHostPort(v).value;
            i >= 0 && Trim(hp.host, BRACKETS) == Trim(v[..i], BRACKETS) && hp.port == v[i + 1..]
  {
    hide Trim;
    var i, h := LastIndexOf(v, ':'), SplitHostPort(v).value.host;
    if v[0] == '[' {
      SplitIsClean(v);
      assert v[..i] == [v[0]] + v[1..i - 1] + [v[i - 1]];
      assert v[..i] == "[" + h + "]";
      TrimBrackets(h);
    }
  }

  /** The printer: `Upstream.Addr` and `Proxy.Addr`. */
  function Addr(ip: string, port: int): string {
    ip + ":" + Itoa(port)
  }

  predicate Printable(host: string, port: int) {
    && !IsBlank(host)
    && host[0] !in BLANKS
    && BareEnds(host, BRACKETS)
    && 1 <= port <= 65535
  }

  lemma {:induction false} SplitLenientlyAtLastColon(h: string, p: string)
    requires h != "" && h[0] != '[' && p != "" && Free(p, ':')
    ensures SplitLeniently(h + ":" + p) == Some(HostAndPort(h, p))
  {
    var s := h + ":" + p;
    LastAt(s, ':', |h|);
    assert s[0] == h[0];
    assert s[..|h|] == h && s[|h| + 1..] == p;
  }

  /** The parser undoes the printer on exactly the printable addresses, unbracketed IPv6 included. */
  lemma {:induction false} ParseInvertsPrint(host: string, port: int)
    ensures ParseIPPort(Addr(host, port)) == Ok((host, port)) <==> Printable(host, port)
  {
    hide ParseIPPort, Itoa, Trim;
    if Printable(host, port) {
      PrintableParses(host, port);
    }
    if ParseIPPort(Addr(host, port)) == Ok((host, port)) {
      ParsedIsPrintable(Addr(host, port));
      ParsedShorterThanBlankLed(Addr(host, port));
    }
  }

  lemma {:induction false} PrintableParses(host: string, port: int)
    requires Printable(host, port)
    ensures ParseIPPort(Addr(host, port)) == Ok((host, port))
  {
    hide SplitLeniently, Atoi, Itoa, Trim;
    AddrIsBare(host, port);
    AtoiInvertsItoa(port);
    PortIsPlain(port);
    SplitLenientlyAtLastColon(host, Itoa(port));
  }

  lemma {:induction false} PortIsPlain(port: int)
    ensures Itoa(port) != "" && Free(Itoa(port), ':')
  {
    assert AllDigits(DigitText(if port < 0 then -port else port));
  }

  /** What the parser accepts is printable except that its host may start with a blank. */
  lemma {:induction false} ParsedIsPrintable(raw: string)
    ensures match ParseIPPort(raw)
            case Ok((h, p)) => !IsBlank(h) && BareEnds(h, BRACKETS) && 1 <= p <= 65535
            case Err(_) => true
  {
  }

  lemma {:induction false} ParsedShorterThanBlankLed(raw: string)
    ensures match ParseIPPort(raw)
            case Ok((h, p)) => |h| + 1 + |Itoa(p)| <= |TrimSpace(raw)| <= |raw|
            case Err(_) => true
    ensures raw != "" && raw[0] in BLANKS ==> |TrimSpace(raw)| < |raw|
  {
    var v := TrimSpace(raw);
    if ParseIPPort(raw).Ok? {
      SplitShortens(v);
      AtoiTextIsNoShorter(SplitLeniently(v).value.port);
    }
    if raw != "" && raw[0] in BLANKS {
      LeadingBlankShortens(raw);
    }
  }

  /** An accepted text whose host has no leading blank is a fixed point of parse, print, parse;
      one whose host has a leading blank is not. */
  lemma {:induction false} ParsePrintParse(raw: string)
    ensures match ParseIPPort(raw)
            case Ok((h, p)) => h != "" && (ParseIPPort(Addr(h, p)) == ParseIPPort(raw) <==> h[0] !in BLANKS)
            case Err(_) => true
  {
    hide ParseIPPort, Addr;
    ParsedIsPrintable(raw);
    if ParseIPPort(raw).Ok? {
      var (h, p) := ParseIPPort(raw).value;
      ParseInvertsPrint(h, p);
    }
  }

  /** There is such a text: trimming looks at the whole text, not inside the brackets. */
  lemma {:induction false} BlankLedHostAccepted()
    ensures ParseIPPort("[ a]:80") == Ok((" a", 80))
    ensures ParseIPPort(Addr(" a", 80)) != ParseIPPort("[ a]:80")
  {
    hide SplitHostPort, Atoi, Trim, Addr;
    BlankLedParts();
    ParsePrintParse("[ a]:80");
  }

  lemma {:induction false} BlankLedParts()
    ensures TrimSpace("[ a]:80") == "[ a]:80" && SplitHostPort("[ a]:80") == Some(HostAndPort(" a", "80"))
    ensures Atoi("80") == Some(80) && Trim(" a", BRACKETS) == " a" && !IsBlank(" a")
  {
    hide SplitHostPort, Trim, Atoi;
    assert BareEnds("[ a]:80", BLANKS) && BareEnds(" a", BRACKETS);
    assert "[" + " a" + "]:" + "80" == "[ a]:80";
    SplitBracketed(" a", "80");
    assert " a"[1] !in BLANKS;
    assert Itoa(80) == "80" by { assert DigitText(8) == "8"; }
    AtoiInvertsItoa(80);
  }

  lemma {:induction false} DigitTextIsShortest(s: string)
    requires AllDigits(s)
    ensures |DigitText(DigitsValue(s))| <= |s|
  {
    if DigitsValue(s) >= 10 {
      assert DigitsValue(s) / 10 == DigitsValue(s[..|s| - 1]);
      assert s[..|s| - 1] != "";
      DigitTextIsShortest(s[..|s| - 1]);
    }
  }

  lemma {:induction false} AtoiTextIsNoShorter(p: string)
    requires Atoi(p).Some? && Atoi(p).value > 0
    ensures |Itoa(Atoi(p).value)| <= |p|
  {
    DigitTextIsShortest(if p[0] in {'+', '-'} then p[1..] else p);
  }

  lemma {:induction false} LeadingBlankShortens(s: string)
    requires s != "" && s[0] in BLANKS
    ensures |TrimSpace(s)| < |s|
  {
  }

  lemma {:induction false} SplitShortens(v: string)
    requires SplitLeniently(v).Some?
    ensures |SplitLeniently(v).value.host| + |SplitLeniently(v).value.port| < |v|
  {
  }

  /** A trailing blank makes a different text of the same address. */
  lemma {:induction false} TrailingBlankParses(host: string, port: int)
    requires Printable(host, port)
    ensures ParseIPPort(Addr(host, port) + " ") == Ok((host, port))
  {
    PrintableParses(host, port);
    AddrIsBare(host, port);
    TrailingBlankTrims(Addr(host, port));
    OnlyTrimmedMatters(Addr(host, port), Addr(host, port) + " ");
  }

  lemma {:induction false} OnlyTrimmedMatters(a: string, b: string)
    requires TrimSpace(a) == TrimSpace(b)
    ensures ParseIPPort(a) == ParseIPPort(b)
  {
    hide TrimSpace, SplitLeniently, Atoi;
  }

  lemma {:induction false} TrailingBlankTrims(a: string)
    requires a != "" && BareEnds(a, BLANKS)
    ensures TrimSpace(a + " ") == a == TrimSpace(a)
  {
  }

  lemma {:induction false} AddrIsBare(host: string, port: int)
    requires Printable(host, port)
    ensures Addr(host, port) != "" && BareEnds(Addr(host, port), BLANKS)
  {
  }

  // ----- proxy destinations (internal/proxy/http_proxy.go) -----

  function NormalizeHostPort(text: string, defaultPort: nat): string {
    var hostport := TrimSpace(text);
    if hostport == "" then ""
    else match SplitHostPort(hostport)
      case Some(HostAndPort(host, port)) => JoinHostPort(Trim(host, BRACKETS), port)
      case None => NormalizeUnsplit(hostport, defaultPort)
  }

  /** No standard separator: a single colon before digits still counts, otherwise it is all host. */
  function NormalizeUnsplit(hostport: string, defaultPort: nat): string {
    var i := LastIndexOf(hostport, ':');
    if Count(hostport, ':') == 1 && AllDigits(hostport[i + 1..]) then
      JoinHostPort(Trim(hostport[..i], BRACKETS), hostport[i + 1..])
    else
      JoinHostPort(Trim(hostport, BRACKETS), Itoa(defaultPort))
  }

  /** Only a blank text has no destination. */
  lemma {:induction false} OnlyBlankHasNoDestination(text: string, defaultPort: nat)
    ensures NormalizeHostPort(text, defaultPort) == "" <==> IsBlank(text)
  {
    hide TrimSpace, SplitHostPort, Trim, Count, LastIndexOf, AllDigits, Itoa, IsBlank;
    BlankMeansNothingLeft(text);
  }

  /** The ways a destination may be written. */
  datatype Authority =
    | Host(host: string)
    | BracketedHost(host: string)
    | HostPort(host: string, port: string)
    | BracketedHostPort(host: string, port: string)
  {
    predicate WellFormed() {
      && host != "" && NoBrackets(host) && BareEnds(host, BLANKS)
      && (this.Host? ==> Count(host, ':') != 1)
      && (this.HostPort? ==> Free(host, ':'))
      && (this.HostPort? || this.BracketedHostPort? ==>
            port != "" && NoBrackets(port) && Free(port, ':') && BareEnds(port, BLANKS))
    }

    function Text(): string {
      match this
      case Host(h) => h
      case BracketedHost(h) => "[" + h + "]"
      case HostPort(h, p) => h + ":" + p
      case BracketedHostPort(h, p) => "[" + h + "]:" + p
    }

    function Meaning(defaultPort: nat): HostAndPort {
      match this
      case Host(h) => HostAndPort(h, Itoa(defaultPort))
      case BracketedHost(h) => HostAndPort(h, Itoa(defaultPort))
      case HostPort(h, p) => HostAndPort(h, p)
      case BracketedHostPort(h, p) => HostAndPort(h, p)
    }
  }

  /** Every well-formed destination normalises to text that splits into exactly its host and its
      port, or the default port if it has none; normalising again, with any default, changes nothing. */
  lemma {:induction false} NormalizeKeepsMeaning(a: Authority, defaultPort: nat, other: nat)
    requires a.WellFormed()
    ensures var n := NormalizeHostPort(a.Text(), defaultPort);
            && SplitHostPort(n) == Some(a.Meaning(defaultPort))
            && NormalizeHostPort(n, other) == n
  {
    var m := a.Meaning(defaultPort);
    var canonical := Canonical(m);
    CanonicalIsWellFormed(a, defaultPort);
    NormalizesToJoin(a, defaultPort);
    SplitInvertsJoin(m.host, m.port);
    NormalizesToJoin(canonical, other);
  }

  function Canonical(m: HostAndPort): (a: Authority)
    ensures a.Text() == JoinHostPort(m.host, m.port)
    ensures forall d: nat :: a.Meaning(d) == m
  {
    if !Free(m.host, ':') then BracketedHostPort(m.host, m.port) else HostPort(m.host, m.port)
  }

  lemma {:induction false} CanonicalIsWellFormed(a: Authority, defaultPort: nat)
    requires a.WellFormed()
    ensures var m := a.Meaning(defaultPort);
            Canonical(m).WellFormed() && NoBrackets(m.host) && NoBrackets(m.port) && Free(m.port, ':')
  {
  }

  lemma {:induction false} NormalizesToJoin(a: Authority, defaultPort: nat)
    requires a.WellFormed()
    ensures var m := a.Meaning(defaultPort);
            NormalizeHostPort(a.Text(), defaultPort) == JoinHostPort(m.host, m.port)
  {
    hide NormalizeHostPort, SplitHostPort, JoinHostPort, Trim, Count, LastIndexOf;
    TextIsTrimmed(a);
    match a
    case HostPort(h, p) =>
      SplitPlain(h, p);
      WhenSplit(a.Text(), h, p, defaultPort);
    case BracketedHostPort(h, p) =>
      SplitBracketed(h, p);
      WhenSplit(a.Text(), h, p, defaultPort);
    case Host(h) =>
      ManyColonsDoNotSplit(h);
      WhenNotSplit(h, h, defaultPort);
    case BracketedHost(h) =>
      ClosedBracketDoesNotSplit(h);
      WhenNotSplit(a.Text(), h, defaultPort);
  }

  lemma {:induction false} WhenSplit(t: string, h: string, p: string, defaultPort: nat)
    requires t != "" && TrimSpace(t) == t && SplitHostPort(t) == Some(HostAndPort(h, p)) && BareEnds(h, BRACKETS)
    ensures NormalizeHostPort(t, defaultPort) == JoinHostPort(h, p)
  {
    hide SplitHostPort, JoinHostPort, Trim;
  }

  lemma {:induction false} WhenNotSplit(t: string, h: string, defaultPort: nat)
    requires t != "" && TrimSpace(t) == t && SplitHostPort(t).None? && Trim(t, BRACKETS) == h
    requires Count(t, ':') != 1 || !AllDigits(t[LastIndexOf(t, ':') + 1..])
    ensures NormalizeHostPort(t, defaultPort) == JoinHostPort(h, Itoa(defaultPort))
  {
    hide SplitHostPort, JoinHostPort, Trim, Count, LastIndexOf, AllDigits, Itoa;
  }

  lemma {:induction false} TextIsTrimmed(a: Authority)
    requires a.WellFormed()
    ensures a.Text() != "" && TrimSpace(a.Text()) == a.Text()
    ensures BareEnds(a.host, BRACKETS)
  {
    var t := a.Text();
    assert t[0] == '[' || t[0] == a.host[0];
    assert t[|t| - 1] == ']' || t[|t| - 1] == a.host[|a.host| - 1] || t[|t| - 1] == a.port[|a.port| - 1];
    assert BareEnds(t, BLANKS);
  }

  lemma {:induction false} ManyColonsDoNotSplit(h: string)
    requires h != "" && NoBrackets(h) && Count(h, ':') != 1
    ensures SplitHostPort(h).None?
  {
    CountIsOne(h, ':');
  }

  lemma {:induction false} ClosedBracketDoesNotSplit(h: string)
    requires NoBrackets(h)
    ensures var t := "[" + h + "]";
            && SplitHostPort(t).None?
            && Trim(t, BRACKETS) == h
            && (!Free(t, ':') ==> !AllDigits(t[LastIndexOf(t, ':') + 1..]))
  {
    var t := "[" + h + "]";
    FirstAt(t, ']', |h| + 1);
    TrimBrackets(h);
    var i := LastIndexOf(t, ':');
    if !Free(t, ':') {
      assert t[i + 1..][|t| - i - 2] == ']';
    }
  }

  lemma {:induction false} TrimBrackets(h: string)
    requires NoBrackets(h)
    ensures Trim("[" + h + "]", BRACKETS) == h
  {
    var t := "[" + h + "]";
    TrimAt(t, BRACKETS, 1, |h| + 1);
    assert t[1..|h| + 1] == h;
  }

  /** A lost bracket is repaired when the rest reads as host and numeric port. */
  lemma {:induction false} RepairsHalfBracketed(a: string, h: string, p: string, defaultPort: nat)
    requires h != "" && NoBrackets(h) && Free(h, ':') && BareEnds(h, BLANKS) && AllDigits(p)
    requires a == "[" + h || a == h + "]"
    ensures NormalizeHostPort(a + ":" + p, defaultPort) == h + ":" + p
  {
    HalfBracketed(a, h);
    NormalizesAtColon(a, p, defaultPort);
  }

  lemma {:induction false} HalfBracketed(a: string, h: string)
    requires h != "" && NoBrackets(h) && Free(h, ':') && BareEnds(h, BLANKS)
    requires a == "[" + h || a == h + "]"
    ensures a != "" && a[0] !in BLANKS && Free(a, ':') && (a[0] == '[' <==> Free(a, ']'))
    ensures Trim(a, BRACKETS) == h
  {
    if a == "[" + h {
      OpeningTrimmed(h);
    } else {
      ClosingTrimmed(h);
      assert a[0] == h[0] && a[|h|] == ']';
    }
  }

  lemma {:induction false} NormalizesAtColon(a: string, p: string, defaultPort: nat)
    requires a != "" && a[0] !in BLANKS && Free(a, ':') && AllDigits(p)
    requires a[0] == '[' <==> Free(a, ']')
    ensures NormalizeHostPort(a + ":" + p, defaultPort) == JoinHostPort(Trim(a, BRACKETS), p)
  {
    var t, i := a + ":" + p, |a|;
    assert t[..i] == a && t[i + 1..] == p;
    OneColon(t, i);
    assert TrimSpace(t) == t by { assert t[0] == a[0] && t[|t| - 1] == p[|p| - 1]; }
    assert SplitHostPort(t).None? by { DoesNotSplit(a, p); }
  }

  lemma {:induction false} DoesNotSplit(a: string, p: string)
    requires a != "" && AllDigits(p)
    requires a[0] == '[' <==> Free(a, ']')
    ensures SplitHostPort(a + ":" + p).None?
  {
    var t := a + ":" + p;
    assert t[0] == a[0];
    if a[0] == '[' {
      assert Free(t, ']');
    } else {
      assert t[IndexOf(a, ']')] == ']';
    }
  }

  lemma {:induction false} OpeningTrimmed(h: string)
    requires BareEnds(h, BRACKETS)
    ensures Trim("[" + h, BRACKETS) == h
  {
  }

  lemma {:induction false} ClosingTrimmed(h: string)
    requires BareEnds(h, BRACKETS)
    ensures Trim(h + "]", BRACKETS) == h
  {
  }

  /** With one colon, at `i`, and no standard separator, the text splits there. */
  lemma {:induction false} OneColon(t: string, i: nat)
    requires i < |t| && t[i] == ':' && Free(t[..i], ':') && AllDigits(t[i + 1..])
    ensures LastIndexOf(t, ':') == i
    ensures forall d: nat :: NormalizeUnsplit(t, d) == JoinHostPort(Trim(t[..i], BRACKETS), t[i + 1..])
  {
    assert forall k :: i < k < |t| ==> t[k] == t[i + 1..][k - i - 1];
    LastAt(t, ':', i);
    CountIsOne(t, ':');
  }
}
