/** The small part of Go's `strings`, `strconv` and `fmt` packages the proxy relies on,
    for ASCII text. */
module Text {
  datatype Option<+T> = None | Some(value: T)

  datatype Result<+T, +E> = Ok(value: T) | Err(error: E)

  const BLANKS: set<char> := {' ', '\t', '\n', '\U{00000B}', '\U{00000C}', '\r'}
  const BRACKETS: set<char> := {'[', ']'}

  const MIN_INT64: int := -0x8000_0000_0000_0000
  const MAX_INT64: int := 0x7fff_ffff_ffff_ffff

  function TrimLeft(s: string, cut: set<char>): (r: string)
    ensures |r| <= |s| && r == s[|s| - |r|..]
    ensures forall k :: 0 <= k < |s| - |r| ==> s[k] in cut
    ensures r != "" ==> r[0] !in cut
  {
    if s != "" && s[0] in cut then TrimLeft(s[1..], cut) else s
  }

  function TrimRight(s: string, cut: set<char>): (r: string)
    ensures |r| <= |s| && r == s[..|r|]
    ensures forall k :: |r| <= k < |s| ==> s[k] in cut
    ensures r != "" ==> r[|r| - 1] !in cut
  {
    if s != "" && s[|s| - 1] in cut then TrimRight(s[..|s| - 1], cut) else s
  }

  /** Neither end of `s` is a character of `cut`. */
  predicate BareEnds(s: string, cut: set<char>) {
    s != "" ==> s[0] !in cut && s[|s| - 1] !in cut
  }

  /** What is removed is exactly the longest run of `cut` characters at either end. */
  function Trim(s: string, cut: set<char>): (r: string)
    ensures BareEnds(r, cut)
    ensures |r| <= |s|
    ensures BareEnds(s, cut) ==> r == s
    ensures r == "" ==> forall k :: 0 <= k < |s| ==> s[k] in cut
  {
    TrimRight(TrimLeft(s, cut), cut)
  }

  /** Any span with bare ends and only `cut` characters around it is the trimmed text. */
  lemma {:induction false} TrimAt(s: string, cut: set<char>, a: nat, b: nat)
    requires a <= b <= |s|
    requires forall k :: 0 <= k < a || b <= k < |s| ==> s[k] in cut
    requires a < b ==> s[a] !in cut && s[b - 1] !in cut
    ensures Trim(s, cut) == s[a..b]
  {
  }

  function TrimSpace(s: string): string {
    Trim(s, BLANKS)
  }

  predicate IsBlank(s: string) {
    forall k :: 0 <= k < |s| ==> s[k] in BLANKS
  }

  /** `strings.TrimSpace(s) == ""`. */
  lemma {:induction false} BlankMeansNothingLeft(s: string)
    ensures IsBlank(s) <==> TrimSpace(s) == ""
  {
  }

  /** No character of `s` is `c`. */
  predicate Free(s: string, c: char) {
    forall k :: 0 <= k < |s| ==> s[k] != c
  }

  /** Position of the first `c`, or -1. */
  function IndexOf(s: string, c: char): (i: int)
    ensures -1 <= i < |s|
    ensures i < 0 <==> Free(s, c)
    ensures i >= 0 ==> s[i] == c && forall k :: 0 <= k < i ==> s[k] != c
  {
    if s == "" then -1
    else if s[0] == c then 0
    else
      var i := IndexOf(s[1..], c);
      if i < 0 then -1 else i + 1
  }

  /** Position of the last `c`, or -1. */
  function LastIndexOf(s: string, c: char): (i: int)
    ensures -1 <= i < |s|
    ensures i < 0 <==> Free(s, c)
    ensures i >= 0 ==> s[i] == c && forall k :: i < k < |s| ==> s[k] != c
  {
    if s == "" then -1
    else if s[|s| - 1] == c then |s| - 1
    else LastIndexOf(s[..|s| - 1], c)
  }

  function Count(s: string, c: char): (n: nat)
    ensures n == 0 <==> Free(s, c)
  {
    if s == "" then 0
    else Count(s[..|s| - 1], c) + if s[|s| - 1] == c then 1 else 0
  }

  lemma {:induction false} CountIsOne(s: string, c: char)
    ensures Count(s, c) == 1 <==> LastIndexOf(s, c) >= 0 && Free(s[..LastIndexOf(s, c)], c)
  {
    if s != "" && s[|s| - 1] != c {
      var t := s[..|s| - 1];
      CountIsOne(t, c);
      var i := LastIndexOf(t, c);
      if i >= 0 {
        assert t[..i] == s[..i];
      }
    }
  }

  predicate AllDigits(s: string) {
    s != "" && forall k :: 0 <= k < |s| ==> '0' <= s[k] <= '9'
  }

  function DigitsValue(s: string): nat
    requires forall k :: 0 <= k < |s| ==> '0' <= s[k] <= '9'
  {
    if s == "" then 0 else 10 * DigitsValue(s[..|s| - 1]) + (s[|s| - 1] - '0') as int
  }

  /** `strconv.Atoi` on a 64-bit platform: None stands for a syntax or a range error. */
  function Atoi(s: string): Option<int> {
    var negative := s != "" && s[0] == '-';
    var body := if s != "" && s[0] in {'+', '-'} then s[1..] else s;
    if !AllDigits(body) then None
    else
      var magnitude: int := DigitsValue(body);
      var n := if negative then -magnitude else magnitude;
      if MIN_INT64 <= n <= MAX_INT64 then Some(n) else None
  }

  function DigitText(n: nat): (s: string)
    ensures AllDigits(s)
    ensures DigitsValue(s) == n
  {
    if n < 10 then [('0' as int + n) as char]
    else DigitText(n / 10) + [('0' as int + n % 10) as char]
  }

  /** Exactly what is read as a number: decimal digits, perhaps after one sign, within 64 bits. */
  lemma {:induction false} AtoiExactly(s: string, n: int)
    ensures Atoi(s) == Some(n) <==>
              && -0x8000_0000_0000_0000 <= n <= 0x7fff_ffff_ffff_ffff
              && (|| (AllDigits(s) && n == DigitsValue(s))
                  || (s != "" && s[0] == '+' && AllDigits(s[1..]) && n == DigitsValue(s[1..]))
                  || (s != "" && s[0] == '-' && AllDigits(s[1..]) && -n == DigitsValue(s[1..])))
  {
    hide DigitsValue;
  }

  /** Digits count as decimals. */
  lemma {:induction false} DigitsAreDecimal(s: string, d: char)
    requires forall k :: 0 <= k < |s| ==> '0' <= s[k] <= '9'
    requires '0' <= d <= '9'
    ensures DigitsValue("") == 0 && DigitsValue(s + [d]) == 10 * DigitsValue(s) + (d as int - '0' as int)
  {
    assert (s + [d])[..|s|] == s;
  }

  /** `fmt.Sprintf("%d", n)`. */
  function Itoa(n: int): string {
    if n < 0 then "-" + DigitText(-n) else DigitText(n)
  }

  lemma {:induction false} AtoiInvertsItoa(n: int)
    ensures Atoi(Itoa(n)) == if MIN_INT64 <= n <= MAX_INT64 then Some(n) else None
  {
  }

  predicate IsUpper(c: char) { 'A' <= c <= 'Z' }
  predicate IsLower(c: char) { 'a' <= c <= 'z' }

  function LowerChar(c: char): char {
    if IsUpper(c) then (c as int + 32) as char else c
  }

  function UpperChar(c: char): char {
    if IsLower(c) then (c as int - 32) as char else c
  }

  function ToLower(s: string): (r: string)
    ensures |r| == |s| && forall k :: 0 <= k < |s| ==> r[k] == LowerChar(s[k])
  {
    seq(|s|, k requires 0 <= k < |s| => LowerChar(s[k]))
  }

  function ToUpper(s: string): (r: string)
    ensures |r| == |s| && forall k :: 0 <= k < |s| ==> r[k] == UpperChar(s[k])
  {
    seq(|s|, k requires 0 <= k < |s| => UpperChar(s[k]))
  }

  predicate EqualFold(a: string, b: string) {
    ToLower(a) == ToLower(b)
  }

  /** Texts are equal but for case exactly if they are as long and agree in every place, letters
      perhaps in different case. */
  lemma {:induction false} EqualFoldExactly(a: string, b: string)
    ensures EqualFold(a, b) <==>
              && |a| == |b|
              && forall k :: 0 <= k < |a| ==>
                   || a[k] == b[k]
                   || ('A' <= a[k] <= 'Z' && b[k] as int == a[k] as int + 32)
                   || ('A' <= b[k] <= 'Z' && a[k] as int == b[k] as int + 32)
  {
    if EqualFold(a, b) {
      assert |a| == |ToLower(a)| == |ToLower(b)| == |b|;
      forall k | 0 <= k < |a| ensures LowerChar(a[k]) == LowerChar(b[k]) {
        assert ToLower(a)[k] == ToLower(b)[k];
      }
    }
  }

  /** The blanks of ASCII: tab, line feed, vertical tab, form feed, carriage return and space. */
  lemma {:induction false} BlanksAre(c: char)
    ensures c in BLANKS <==> 9 <= c as int <= 13 || c as int == 32
  {
  }
}
