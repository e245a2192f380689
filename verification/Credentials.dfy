/** Proxy credentials as HTTP carries them (section 2 of RFC 7617, with the encoding of section 4 of
    RFC 4648), and how that check compares with the SOCKS5 one. */
module Credentials {
  import opened Text
  import opened Wire
  import opened Socks5

  // ----- base64 -----

  type sextet = v: nat | v < 64

  function Letter(v: sextet): char {
    if v < 26 then ('A' as int + v) as char
    else if v < 52 then ('a' as int + (v - 26)) as char
    else if v < 62 then ('0' as int + (v - 52)) as char
    else if v == 62 then '+'
    else '/'
  }

  function Digit(c: char): Option<sextet> {
    if 'A' <= c <= 'Z' then Some(c as int - 'A' as int)
    else if 'a' <= c <= 'z' then Some(c as int - 'a' as int + 26)
    else if '0' <= c <= '9' then Some(c as int - '0' as int + 52)
    else if c == '+' then Some(62)
    else if c == '/' then Some(63)
    else None
  }

  function High(a: byte): sextet { a as int / 4 }
  function Middle(a: byte, b: byte): sextet { a as int % 4 * 16 + b as int / 16 }
  function Low(b: byte, c: byte): sextet { b as int % 16 * 4 + c as int / 64 }
  function Last(c: byte): sextet { c as int % 64 }

  function First8(v: sextet, w: sextet): byte { (v * 4 + w / 16) as byte }
  function Second8(w: sextet, x: sextet): byte { (w % 16 * 16 + x / 4) as byte }
  function Third8(x: sextet, y: sextet): byte { (x % 4 * 64 + y) as byte }

  function EncodeBase64(bs: seq<byte>): string {
    if |bs| == 0 then ""
    else if |bs| == 1 then [Letter(High(bs[0])), Letter(Middle(bs[0], 0)), '=', '=']
    else if |bs| == 2 then [Letter(High(bs[0])), Letter(Middle(bs[0], bs[1])), Letter(Low(bs[1], 0)), '=']
    else
      [Letter(High(bs[0])), Letter(Middle(bs[0], bs[1])), Letter(Low(bs[1], bs[2])), Letter(Last(bs[2]))]
      + EncodeBase64(bs[3..])
  }

  /** Line breaks are skipped wherever they are. */
  function WithoutBreaks(s: string): string {
    if s == "" then ""
    else (if s[0] == '\r' || s[0] == '\n' then "" else [s[0]]) + WithoutBreaks(s[1..])
  }

  /** Groups of four; only the last may be padded. Bits that padding leaves over are ignored. */
  function DecodeGroups(s: string): Option<seq<byte>> {
    if s == "" then Some([])
    else if |s| < 4 then None
    else
      match (Digit(s[0]), Digit(s[1]), Digit(s[2]), Digit(s[3]))
      case (Some(v), Some(w), Some(x), Some(y)) =>
        (match DecodeGroups(s[4..])
         case None => None
         case Some(rest) => Some([First8(v, w), Second8(w, x), Third8(x, y)] + rest))
      case (Some(v), Some(w), Some(x), None) =>
        if s[3..] == "=" then Some([First8(v, w), Second8(w, x)]) else None
      case (Some(v), Some(w), None, _) =>
        if s[2..] == "==" then Some([First8(v, w)]) else None
      case _ => None
  }

  /** `base64.StdEncoding.DecodeString`. */
  function DecodeBase64(s: string): Option<seq<byte>> {
    DecodeGroups(WithoutBreaks(s))
  }

  lemma {:induction false} DigitInvertsLetter(v: sextet)
    ensures Digit(Letter(v)) == Some(v)
    ensures Letter(v) != '\r' && Letter(v) != '\n' && Letter(v) !in BLANKS
  {
  }

  /** The letters are those of the standard alphabet, A to Z, a to z, 0 to 9, + and /, in this order;
      only they are digits. */
  lemma {:induction false} AlphabetIsStandard(v: sextet, c: char)
    ensures Letter(0) == 'A' && Letter(25) == 'Z' && Letter(26) == 'a' && Letter(51) == 'z'
    ensures Letter(52) == '0' && Letter(61) == '9' && Letter(62) == '+' && Letter(63) == '/'
    ensures v < 61 && v != 25 && v != 51 ==> Letter(v + 1) as int == Letter(v) as int + 1
    ensures Digit(c) == Some(v) <==> c == Letter(v)
  {
  }

  lemma {:induction false} GroupRoundTrip(a: byte, b: byte, c: byte)
    ensures First8(High(a), Middle(a, b)) == a
    ensures Second8(Middle(a, b), Low(b, c)) == b
    ensures Third8(Low(b, c), Last(c)) == c
  {
  }

  lemma {:induction false} DecodeInvertsEncode(bs: seq<byte>)
    ensures DecodeBase64(EncodeBase64(bs)) == Some(bs)
  {
    EncodedHasNoBlanks(bs);
    NothingToSkip(EncodeBase64(bs));
    GroupsInvertEncode(bs);
  }

  lemma {:induction false} GroupsInvertEncode(bs: seq<byte>)
    ensures DecodeGroups(EncodeBase64(bs)) == Some(bs)
  {
    hide DecodeGroups, Letter, High, Middle, Low, Last;
    if |bs| == 0 {
      NoGroups();
    } else if |bs| <= 2 {
      PaddedGroup(bs);
    } else {
      GroupsInvertEncode(bs[3..]);
      FullGroup(bs[0], bs[1], bs[2], EncodeBase64(bs[3..]), bs[3..]);
      assert bs == [bs[0], bs[1], bs[2]] + bs[3..];
    }
  }

  lemma {:induction false} NoGroups()
    ensures DecodeGroups("") == Some([])
  {
  }

  lemma {:induction false} PaddedGroup(bs: seq<byte>)
    requires 1 <= |bs| <= 2
    ensures DecodeGroups(EncodeBase64(bs)) == Some(bs)
  {
    hide Letter, Digit, High, Middle, Low, Last, First8, Second8, Third8;
    EqualsIsNoDigit();
    DigitInvertsLetter(High(bs[0]));
    if |bs| == 1 {
      DigitInvertsLetter(Middle(bs[0], 0));
      GroupRoundTrip(bs[0], 0, 0);
      assert EncodeBase64(bs)[2..] == "==" && bs == [bs[0]];
    } else {
      DigitInvertsLetter(Middle(bs[0], bs[1]));
      DigitInvertsLetter(Low(bs[1], 0));
      GroupRoundTrip(bs[0], bs[1], 0);
      assert EncodeBase64(bs)[3..] == "=" && bs == [bs[0], bs[1]];
    }
  }

  lemma {:induction false} FullGroup(a: byte, b: byte, c: byte, tail: string, rest: seq<byte>)
    requires DecodeGroups(tail) == Some(rest)
    ensures DecodeGroups([Letter(High(a)), Letter(Middle(a, b)), Letter(Low(b, c)), Letter(Last(c))] + tail)
         == Some([a, b, c] + rest)
  {
    hide Letter, Digit, High, Middle, Low, Last, First8, Second8, Third8;
    DigitInvertsLetter(High(a));
    DigitInvertsLetter(Middle(a, b));
    DigitInvertsLetter(Low(b, c));
    DigitInvertsLetter(Last(c));
    GroupRoundTrip(a, b, c);
    var s := [Letter(High(a)), Letter(Middle(a, b)), Letter(Low(b, c)), Letter(Last(c))] + tail;
    assert s[4..] == tail;
  }

  lemma {:induction false} EqualsIsNoDigit()
    ensures Digit('=').None?
  {
  }

  lemma {:induction false} EncodedHasNoBlanks(bs: seq<byte>)
    ensures forall k :: 0 <= k < |EncodeBase64(bs)| ==> EncodeBase64(bs)[k] !in BLANKS
    ensures bs != [] ==> EncodeBase64(bs) != ""
  {
    hide High, Middle, Low, Last;
    if |bs| > 2 {
      EncodedHasNoBlanks(bs[3..]);
    }
  }

  lemma {:induction false} NothingToSkip(s: string)
    requires Free(s, '\r') && Free(s, '\n')
    ensures WithoutBreaks(s) == s
  {
    if s != "" {
      assert forall k :: 0 <= k < |s[1..]| ==> s[1..][k] == s[k + 1];
      NothingToSkip(s[1..]);
    }
  }

  /** A line break makes no difference, wherever it is. */
  lemma {:induction false} BreakIsSkipped(a: string, c: char, b: string)
    requires c == '\r' || c == '\n'
    ensures WithoutBreaks(a + [c] + b) == WithoutBreaks(a + b)
  {
    if a == "" {
      assert ("" + [c] + b)[1..] == b && "" + b == b;
    } else {
      BreakIsSkipped(a[1..], c, b);
      assert (a + [c] + b)[1..] == a[1..] + [c] + b && (a + b)[1..] == a[1..] + b;
    }
  }

  /** The text with the bits that its padding leaves over set to zero. */
  function ClearUnused(s: string): string {
    var n := |s|;
    if n < 4 || s[n - 1] != '=' then s
    else if s[n - 2] == '=' then
      if Digit(s[n - 3]).Some? then s[n - 3 := Letter(Digit(s[n - 3]).value / 16 * 16)] else s
    else
      if Digit(s[n - 2]).Some? then s[n - 2 := Letter(Digit(s[n - 2]).value / 4 * 4)] else s
  }

  /** What a text decodes to: exactly the bytes whose encoding it is once its unused bits are cleared. */
  lemma {:induction false} DecodesExactly(s: string, bs: seq<byte>)
    ensures DecodeGroups(s) == Some(bs) <==> ClearUnused(s) == EncodeBase64(bs)
    decreases |s|
  {
    hide DecodeGroups, ClearUnused, EncodeBase64;
    EncodedLength(bs);
    ClearKeepsLength(s);
    if |s| < 4 {
      ShortDecodes(s, bs);
    } else if |s| == 4 {
      OneGroupDecodes(s, bs);
    } else {
      if |s| >= 8 && |bs| > 3 {
        DecodesExactly(s[4..], bs[3..]);
      }
      ManyGroupsDecode(s, bs);
    }
  }

  lemma {:induction false} EncodedLength(bs: seq<byte>)
    ensures |EncodeBase64(bs)| == (|bs| + 2) / 3 * 4
  {
    hide Letter, High, Middle, Low, Last;
    if |bs| > 3 {
      EncodedLength(bs[3..]);
    }
  }

  lemma {:induction false} ClearKeepsLength(s: string)
    ensures |ClearUnused(s)| == |s|
  {
  }

  lemma {:induction false} ShortDecodes(s: string, bs: seq<byte>)
    requires |s| < 4 && |EncodeBase64(bs)| == (|bs| + 2) / 3 * 4
    ensures DecodeGroups(s) == Some(bs) <==> ClearUnused(s) == EncodeBase64(bs)
  {
    if s == "" && ClearUnused(s) == EncodeBase64(bs) {
      assert bs == [];
    }
  }

  /** The letters of a group and its bytes determine each other, but for the bits left over. */
  lemma {:induction false} GroupInverse(v: sextet, w: sextet, x: sextet, y: sextet)
    ensures High(First8(v, w)) == v && Middle(First8(v, w), Second8(w, x)) == w
    ensures Low(Second8(w, x), Third8(x, y)) == x && Last(Third8(x, y)) == y
    ensures Middle(First8(v, w), 0) == w / 16 * 16 && Low(Second8(w, x), 0) == x / 4 * 4
  {
  }

  lemma {:induction false} LettersAre(c: char)
    ensures Digit(c).Some? ==> Letter(Digit(c).value) == c
    ensures Digit('=').None?
  {
  }

  lemma {:induction false} OneGroupDecodes(s: string, bs: seq<byte>)
    requires |s| == 4 && |EncodeBase64(bs)| == (|bs| + 2) / 3 * 4
    ensures DecodeGroups(s) == Some(bs) <==> ClearUnused(s) == EncodeBase64(bs)
  {
    if DecodeGroups(s) == Some(bs) {
      GroupIsEncoded(s, bs);
    }
    if ClearUnused(s) == EncodeBase64(bs) {
      EncodedGroupDecodes(s, bs);
    }
  }

  lemma {:induction false} GroupIsEncoded(s: string, bs: seq<byte>)
    requires |s| == 4 && DecodeGroups(s) == Some(bs)
    ensures ClearUnused(s) == EncodeBase64(bs)
  {
    hide Letter, Digit, High, Middle, Low, Last, First8, Second8, Third8;
    LettersAre(s[0]);
    LettersAre(s[1]);
    LettersAre(s[2]);
    LettersAre(s[3]);
    assert s[4..] == "";
    NoGroups();
    var v, w := Digit(s[0]).value, Digit(s[1]).value;
    if Digit(s[2]).None? {
      GroupInverse(v, w, 0, 0);
      assert s[2..] == "==" && s[2] == '=' && s[3] == '=';
    } else if Digit(s[3]).None? {
      GroupInverse(v, w, Digit(s[2]).value, 0);
      assert s[3..] == "=" && s[3] == '=';
    } else {
      GroupInverse(v, w, Digit(s[2]).value, Digit(s[3]).value);
    }
  }

  lemma {:induction false} EncodedGroupDecodes(s: string, bs: seq<byte>)
    requires |s| == 4 && |EncodeBase64(bs)| == (|bs| + 2) / 3 * 4 && ClearUnused(s) == EncodeBase64(bs)
    ensures DecodeGroups(s) == Some(bs)
  {
    var c := ClearUnused(s);
    GroupsInvertEncode(bs);
    ClearingIsInvisible(s);
  }

  /** Decoding ignores the unused bits. */
  lemma {:induction false} ClearingIsInvisible(s: string)
    requires |s| == 4
    ensures DecodeGroups(ClearUnused(s)) == DecodeGroups(s)
  {
    hide Letter, Digit, First8, Second8, Third8;
    LettersAre(s[1]);
    LettersAre(s[2]);
    LettersAre(s[3]);
    var c := ClearUnused(s);
    if c != s {
      if s[2] == '=' {
        DigitInvertsLetter(Digit(s[1]).value / 16 * 16);
        assert c[2..] == s[2..] == "==";
        UnusedBits(0, Digit(s[1]).value, 0);
      } else {
        DigitInvertsLetter(Digit(s[2]).value / 4 * 4);
        assert c[3..] == s[3..] == "=";
        UnusedBits(0, 0, Digit(s[2]).value);
      }
    }
  }

  lemma {:induction false} UnusedBits(v: sextet, w: sextet, x: sextet)
    ensures forall v: sextet :: First8(v, w / 16 * 16) == First8(v, w)
    ensures forall w: sextet :: Second8(w, x / 4 * 4) == Second8(w, x)
  {
  }

  lemma {:induction false} ManyGroupsDecode(s: string, bs: seq<byte>)
    requires |s| > 4 && |EncodeBase64(bs)| == (|bs| + 2) / 3 * 4 && |ClearUnused(s)| == |s|
    requires |s| >= 8 && |bs| > 3 ==>
               (DecodeGroups(s[4..]) == Some(bs[3..]) <==> ClearUnused(s[4..]) == EncodeBase64(bs[3..]))
    ensures DecodeGroups(s) == Some(bs) <==> ClearUnused(s) == EncodeBase64(bs)
  {
    hide Letter, Digit, High, Middle, Low, Last, First8, Second8, Third8;
    LettersAre(s[0]);
    LettersAre(s[1]);
    LettersAre(s[2]);
    LettersAre(s[3]);
    if |s| >= 8 && |bs| > 3 {
      ClearsInTail(s);
      if DecodeGroups(s) == Some(bs) {
        GroupInverse(Digit(s[0]).value, Digit(s[1]).value, Digit(s[2]).value, Digit(s[3]).value);
        assert bs[3..] == DecodeGroups(s[4..]).value;
      }
      if ClearUnused(s) == EncodeBase64(bs) {
        DigitInvertsLetter(High(bs[0]));
        DigitInvertsLetter(Middle(bs[0], bs[1]));
        DigitInvertsLetter(Low(bs[1], bs[2]));
        DigitInvertsLetter(Last(bs[2]));
        assert EncodeBase64(bs)[4..] == EncodeBase64(bs[3..]);
        assert ClearUnused(s)[..4] == s[..4] && s[..4][0] == s[0] && s[..4][1] == s[1];
        GroupRoundTrip(bs[0], bs[1], bs[2]);
        assert bs == [bs[0], bs[1], bs[2]] + bs[3..];
      }
    } else {
      DecodedSize(s);
    }
  }

  lemma {:induction false} ClearsInTail(s: string)
    requires |s| >= 8
    ensures ClearUnused(s) == s[..4] + ClearUnused(s[4..])
  {
    var n, t := |s|, s[4..];
    assert t[n - 5] == s[n - 1] && t[n - 6] == s[n - 2] && t[n - 7] == s[n - 3];
    assert s == s[..4] + t;
  }

  /** Longer texts decode to more bytes. */
  lemma {:induction false} DecodedSize(s: string)
    ensures DecodeGroups(s).Some? ==> |s| == (|DecodeGroups(s).value| + 2) / 3 * 4
  {
    hide Digit, First8, Second8, Third8;
    if |s| >= 4 {
      DecodedSize(s[4..]);
    }
  }

  // ----- the HTTP check -----

  const COLON: byte := 58

  function Pair(user: seq<byte>, pass: seq<byte>): seq<byte> {
    user + [COLON] + pass
  }

  /** `header` is the value of Proxy-Authorization, empty if there is none. */
  predicate CheckHTTPProxyAuth(header: string, user: seq<byte>, pass: seq<byte>) {
    var h := TrimSpace(header);
    var i := IndexOf(h, ' ');
    && h != "" && i >= 0
    && EqualFold(h[..i], "Basic")
    && DecodeBase64(TrimSpace(h[i + 1..])) == Some(Pair(user, pass))
  }

  /** The trimmed header is the word Basic, in any case, a space, and a rest that decodes, trimmed, to
      the user, a colon (byte 58) and the password. */
  ghost predicate Carries(header: string, user: seq<byte>, pass: seq<byte>) {
    exists word, rest :: Spelled(header, word, rest) && DecodeBase64(TrimSpace(rest)) == Some(user + [58] + pass)
  }

  predicate Spelled(header: string, word: string, rest: string) {
    TrimSpace(header) == word + " " + rest && EqualFold(word, "Basic")
  }

  /** Exactly these headers are accepted. */
  lemma {:induction false} AcceptedExactly(header: string, user: seq<byte>, pass: seq<byte>)
    ensures CheckHTTPProxyAuth(header, user, pass) <==> Carries(header, user, pass)
  {
    hide DecodeBase64, EqualFold, Trim, TrimSpace;
    var h := TrimSpace(header);
    var i := IndexOf(h, ' ');
    if CheckHTTPProxyAuth(header, user, pass) {
      assert h == h[..i] + " " + h[i + 1..];
      assert Spelled(header, h[..i], h[i + 1..]);
    }
    if word, rest :| Spelled(header, word, rest) && DecodeBase64(TrimSpace(rest)) == Some(user + [58] + pass) {
      SchemeIsWord(word);
      WordThenRest(word, rest);
    }
  }

  lemma {:induction false} WordThenRest(word: string, rest: string)
    requires Free(word, ' ')
    ensures var h := word + " " + rest;
            h != "" && IndexOf(h, ' ') == |word| && h[..|word|] == word && h[|word| + 1..] == rest
  {
    var h := word + " " + rest;
    assert h[|word|] == ' ' && forall k :: 0 <= k < |word| ==> h[k] == word[k];
  }

  /** So a missing or blank header, a header of one word, and one of another scheme are not. */
  lemma {:induction false} OthersAreNotAccepted(header: string, user: seq<byte>, pass: seq<byte>)
    ensures IsBlank(header) ==> !Carries(header, user, pass)
    ensures Free(TrimSpace(header), ' ') ==> !Carries(header, user, pass)
    ensures forall word, rest :: TrimSpace(header) == word + " " + rest && Free(word, ' ') && !EqualFold(word, "Basic")
              ==> !Carries(header, user, pass)
  {
    hide DecodeBase64, EqualFold, Trim, TrimSpace;
    BlankMeansNothingLeft(header);
    if word, rest :| Spelled(header, word, rest) && DecodeBase64(TrimSpace(rest)) == Some(user + [58] + pass) {
      SchemeIsWord(word);
      WordThenRest(word, rest);
      forall other, rest' | TrimSpace(header) == other + " " + rest' && Free(other, ' ') ensures other == word {
        WordThenRest(other, rest');
      }
    }
  }

  function BasicHeader(scheme: string, user: seq<byte>, pass: seq<byte>): string {
    scheme + " " + EncodeBase64(Pair(user, pass))
  }

  /** A header that carries a pair is accepted exactly when the texts joined by colons agree, in
      whatever case the scheme is written. */
  lemma {:induction false} HeaderAccepted(scheme: string, u: seq<byte>, p: seq<byte>, user: seq<byte>, pass: seq<byte>)
    requires EqualFold(scheme, "Basic")
    ensures CheckHTTPProxyAuth(BasicHeader(scheme, u, p), user, pass) <==> Pair(u, p) == Pair(user, pass)
  {
    hide EncodeBase64, DecodeBase64, EqualFold, Trim;
    var payload := EncodeBase64(Pair(u, p));
    SchemeIsWord(scheme);
    EncodedHasNoBlanks(Pair(u, p));
    HeaderParts(scheme, payload);
    DecodeInvertsEncode(Pair(u, p));
  }

  lemma {:induction false} SchemeIsWord(scheme: string)
    requires EqualFold(scheme, "Basic")
    ensures |scheme| == 5 && Free(scheme, ' ') && BareEnds(scheme, BLANKS)
  {
  }

  lemma {:induction false} HeaderParts(scheme: string, payload: string)
    requires scheme != "" && Free(scheme, ' ') && BareEnds(scheme, BLANKS)
    requires payload != "" && BareEnds(payload, BLANKS)
    ensures var h := scheme + " " + payload;
            && TrimSpace(h) == h && IndexOf(h, ' ') == |scheme|
            && h[..|scheme|] == scheme && h[|scheme| + 1..] == payload && TrimSpace(payload) == payload
  {
    hide Trim;
    var h := scheme + " " + payload;
    assert h[0] == scheme[0] && h[|h| - 1] == payload[|payload| - 1];
    assert h[|scheme|] == ' ' && forall k :: 0 <= k < |scheme| ==> h[k] == scheme[k];
  }

  // ----- the two front ends -----

  predicate NoColon(bs: seq<byte>) {
    forall k :: 0 <= k < |bs| ==> bs[k] != COLON
  }

  /** What SOCKS5 can present, it accepts exactly when both texts agree. */
  lemma {:induction false} SocksAccepts(u: seq<byte>, p: seq<byte>, rest: seq<byte>, user: seq<byte>, pass: seq<byte>)
    requires |u| <= 255 && |p| <= 255
    ensures Authenticate(EncodeAuth(u, p) + rest, user, pass).ok <==> u == user && p == pass
  {
    hide TwoCounted;
    TwoCountedReads(u, p, rest);
    AfterVersion(u, p, rest);
  }

  lemma {:induction false} AfterVersion(u: seq<byte>, p: seq<byte>, rest: seq<byte>)
    requires |u| <= 255 && |p| <= 255
    ensures var inp := EncodeAuth(u, p) + rest;
            inp != [] && inp[0] == 1 && inp[1..] == EncodeCounted(u) + (EncodeCounted(p) + rest)
  {
    hide EncodeCounted;
    assert EncodeAuth(u, p) + rest == [1] + (EncodeCounted(u) + (EncodeCounted(p) + rest));
  }

  /** The fields fit into the SOCKS5 message and are accepted there. */
  predicate SocksWould(u: seq<byte>, p: seq<byte>, user: seq<byte>, pass: seq<byte>) {
    |u| <= 255 && |p| <= 255 && Authenticate(EncodeAuth(u, p), user, pass).ok
  }

  predicate HttpWould(u: seq<byte>, p: seq<byte>, user: seq<byte>, pass: seq<byte>) {
    CheckHTTPProxyAuth(BasicHeader("Basic", u, p), user, pass)
  }

  lemma {:induction false} BothDecide(u: seq<byte>, p: seq<byte>, user: seq<byte>, pass: seq<byte>)
    ensures SocksWould(u, p, user, pass) <==> |u| <= 255 && |p| <= 255 && u == user && p == pass
    ensures HttpWould(u, p, user, pass) <==> Pair(u, p) == Pair(user, pass)
  {
    hide Authenticate, CheckHTTPProxyAuth, BasicHeader, EqualFold;
    assert EqualFold("Basic", "Basic") by { SameFold("Basic"); }
    HeaderAccepted("Basic", u, p, user, pass);
    if |u| <= 255 && |p| <= 255 {
      SocksAccepts(u, p, [], user, pass);
      assert EncodeAuth(u, p) + [] == EncodeAuth(u, p);
    }
  }

  lemma {:induction false} SameFold(s: string)
    ensures EqualFold(s, s)
  {
  }

  /** Whatever SOCKS5 accepts, HTTP accepts. */
  lemma {:induction false} HttpAcceptsMore(u: seq<byte>, p: seq<byte>, user: seq<byte>, pass: seq<byte>)
    requires SocksWould(u, p, user, pass)
    ensures HttpWould(u, p, user, pass)
  {
    hide SocksWould, HttpWould;
    BothDecide(u, p, user, pass);
  }

  predicate Agrees(u: seq<byte>, p: seq<byte>, user: seq<byte>, pass: seq<byte>) {
    SocksWould(u, p, user, pass) <==> HttpWould(u, p, user, pass)
  }

  predicate Presentable(user: seq<byte>, pass: seq<byte>) {
    |user| <= 255 && |pass| <= 255
  }

  lemma {:induction false} SamePair(u: seq<byte>, p: seq<byte>, user: seq<byte>, pass: seq<byte>)
    requires NoColon(u) && NoColon(user) && Pair(u, p) == Pair(user, pass)
    ensures u == user && p == pass
  {
    var a, b := Pair(u, p), Pair(user, pass);
    assert a[|u|] == COLON && b[|user|] == COLON;
    assert forall k :: 0 <= k < |u| ==> a[k] == u[k];
    assert forall k :: 0 <= k < |user| ==> b[k] == user[k];
    assert |u| == |user|;
    assert u == a[..|u|] && user == b[..|user|] && p == a[|u| + 1..] && pass == b[|user| + 1..];
  }

  /** A configured user with a colon also lets in the pair split at that colon. */
  lemma {:induction false} SplitAtColon(user: seq<byte>, pass: seq<byte>, k: nat)
    requires k < |user| && user[k] == COLON
    ensures Pair(user[..k], Pair(user[k + 1..], pass)) == Pair(user, pass)
  {
  }

  /** With user names free of colons, as HTTP requires of them, the front ends agree on every pair if
      and only if the configured user has no colon and both fields fit into 255 bytes. */
  lemma {:induction false} AgreeOnEveryPair(user: seq<byte>, pass: seq<byte>)
    ensures (forall u, p :: NoColon(u) ==> Agrees(u, p, user, pass)) <==> NoColon(user) && Presentable(user, pass)
  {
    hide SocksWould, HttpWould, Pair;
    if NoColon(user) && Presentable(user, pass) {
      forall u, p | NoColon(u) ensures Agrees(u, p, user, pass) {
        BothDecide(u, p, user, pass);
        if Pair(u, p) == Pair(user, pass) {
          SamePair(u, p, user, pass);
        }
      }
    } else if !NoColon(user) {
      var k := FirstColon(user);
      SplitAtColon(user, pass, k);
      BothDecide(user[..k], Pair(user[k + 1..], pass), user, pass);
      assert !Agrees(user[..k], Pair(user[k + 1..], pass), user, pass);
    } else {
      BothDecide(user, pass, user, pass);
      assert !Agrees(user, pass, user, pass);
    }
  }

  lemma {:induction false} FirstColon(bs: seq<byte>) returns (k: nat)
    requires !NoColon(bs)
    ensures k < |bs| && bs[k] == COLON && NoColon(bs[..k])
  {
    k := 0;
    while bs[k] != COLON
      invariant k < |bs| && NoColon(bs[..k])
      decreases |bs| - k
    {
      assert k + 1 < |bs| by { assert bs == bs[..k] + [bs[k]] + bs[k + 1..]; }
      assert bs[..k + 1] == bs[..k] + [bs[k]];
      k := k + 1;
    }
  }

  /** If any user name may be presented the configured password must be free of colons too. */
  lemma {:induction false} AgreeOnAnyPair(user: seq<byte>, pass: seq<byte>)
    ensures (forall u, p :: Agrees(u, p, user, pass)) <==> NoColon(user) && NoColon(pass) && Presentable(user, pass)
  {
    hide SocksWould, HttpWould, Pair;
    AgreeOnEveryPair(user, pass);
    if NoColon(user) && NoColon(pass) && Presentable(user, pass) {
      forall u, p ensures Agrees(u, p, user, pass) {
        BothDecide(u, p, user, pass);
        if Pair(u, p) == Pair(user, pass) {
          OneColon(u, p, user, pass);
          SamePair(u, p, user, pass);
        }
      }
    } else if NoColon(user) && !NoColon(pass) {
      var k := FirstColon(pass);
      ShiftColon(user, pass, k);
      BothDecide(Pair(user, pass[..k]), pass[k + 1..], user, pass);
      assert !Agrees(Pair(user, pass[..k]), pass[k + 1..], user, pass);
    }
  }

  lemma {:induction false} OneColon(u: seq<byte>, p: seq<byte>, user: seq<byte>, pass: seq<byte>)
    requires NoColon(user) && NoColon(pass) && Pair(u, p) == Pair(user, pass)
    ensures NoColon(u)
  {
    var b := Pair(user, pass);
    assert Pair(u, p)[|u|] == COLON;
    assert forall k :: 0 <= k < |b| && k != |user| ==> b[k] != COLON;
    assert forall k :: 0 <= k < |u| ==> b[k] == u[k];
  }

  lemma {:induction false} ShiftColon(user: seq<byte>, pass: seq<byte>, k: nat)
    requires k < |pass| && pass[k] == COLON
    ensures Pair(Pair(user, pass[..k]), pass[k + 1..]) == Pair(user, pass)
    ensures Pair(user, pass[..k]) != user
  {
  }
}
