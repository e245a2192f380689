/** The settings record: normalisation, validation, patching, and the durations derived from it. */
module Settings {
  import opened Text
  import Rotation

  datatype Settings = Settings(
    apiKey: string,
    fetchProtocol: string, countryCode: string, fetchCount: int, fetchInterval: int,
    testURL: string, testTimeout: int, retestInterval: int, testConcurrency: int,
    exitHold: int,
    proxyUser: string, proxyPass: string, adminUser: string, adminPass: string)

  datatype Invalid =
    | BadProtocol | BadCountry | BadFetchCount | BadFetchInterval | BadTestURL | BadTestScheme
    | BadTestTimeout | BadRetestInterval | BadConcurrency | BadHold | NoProxyCredentials

  /** The scheme of a URL that parses and names a host. */
  type SchemeOf = string -> Option<string>

  function NormalCountry(c: string): string {
    var upper := ToUpper(TrimSpace(c));
    if EqualFold(upper, "ALL") then "all" else upper
  }

  function Normalized(s: Settings): Settings {
    s.(fetchProtocol := ToLower(TrimSpace(s.fetchProtocol)), countryCode := NormalCountry(s.countryCode))
  }

  predicate IsLetter(c: char) {
    IsUpper(c) || IsLower(c)
  }

  /** The pattern for country codes, in either case: `all` or two letters. */
  predicate CountryMatches(c: string) {
    EqualFold(c, "all") || (|c| == 2 && IsLetter(c[0]) && IsLetter(c[1]))
  }

  /** The first complaint, if there is one. */
  function Validate(settings: Settings, schemeOf: SchemeOf): Option<Invalid> {
    var s := Normalized(settings);
    if s.fetchProtocol != "http" && s.fetchProtocol != "https" && s.fetchProtocol != "socks5" then Some(BadProtocol)
    else if !CountryMatches(s.countryCode) then Some(BadCountry)
    else if s.fetchCount < 1 || s.fetchCount > 20 then Some(BadFetchCount)
    else if s.fetchInterval < 1 then Some(BadFetchInterval)
    else if schemeOf(s.testURL).None? then Some(BadTestURL)
    else if schemeOf(s.testURL).value != "http" && schemeOf(s.testURL).value != "https" then Some(BadTestScheme)
    else if s.testTimeout < 1 then Some(BadTestTimeout)
    else if s.retestInterval < 1 then Some(BadRetestInterval)
    else if s.testConcurrency < 1 || s.testConcurrency > 200 then Some(BadConcurrency)
    else if s.exitHold < 1 then Some(BadHold)
    else if TrimSpace(s.proxyUser) == "" || TrimSpace(s.proxyPass) == "" then Some(NoProxyCredentials)
    else None
  }

  // ----- normalisation -----

  lemma {:induction false} CaseKeepsTrimmed(t: string)
    requires BareEnds(t, BLANKS)
    ensures TrimSpace(ToLower(t)) == ToLower(t) && TrimSpace(ToUpper(t)) == ToUpper(t)
  {
    assert forall c :: c !in BLANKS ==> LowerChar(c) !in BLANKS && UpperChar(c) !in BLANKS;
    assert BareEnds(ToLower(t), BLANKS) && BareEnds(ToUpper(t), BLANKS);
  }

  lemma {:induction false} CaseTwice(t: string)
    ensures ToLower(ToLower(t)) == ToLower(t) && ToUpper(ToUpper(t)) == ToUpper(t)
    ensures ToLower(ToUpper(t)) == ToLower(t)
  {
  }

  lemma {:induction false} NormalCountryTwice(c: string)
    ensures NormalCountry(NormalCountry(c)) == NormalCountry(c)
  {
    var t := TrimSpace(c);
    CaseTwice(t);
    CaseKeepsTrimmed(t);
    AllIsAll();
  }

  lemma {:induction false} AllIsAll()
    ensures NormalCountry("all") == "all"
  {
    assert TrimSpace("all") == "all" && EqualFold(ToUpper("all"), "ALL") by {
      assert BareEnds("all", BLANKS);
    }
  }

  lemma {:induction false} NormalizeIdempotent(s: Settings, schemeOf: SchemeOf)
    ensures Normalized(Normalized(s)) == Normalized(s)
    ensures Validate(Normalized(s), schemeOf) == Validate(s, schemeOf)
  {
    hide TrimSpace, ToLower, NormalCountry, CountryMatches;
    ProtocolTwice(s.fetchProtocol);
    NormalCountryTwice(s.countryCode);
  }

  lemma {:induction false} ProtocolTwice(p: string)
    ensures ToLower(TrimSpace(ToLower(TrimSpace(p)))) == ToLower(TrimSpace(p))
  {
    CaseKeepsTrimmed(TrimSpace(p));
    CaseTwice(TrimSpace(p));
  }

  // ----- what is accepted -----

  /** A protocol and a country written in any case with blanks around them, limits in range, an http
      or https test URL, and proxy credentials that are not blank. */
  predicate Acceptable(s: Settings, schemeOf: SchemeOf) {
    var protocol, country := TrimSpace(s.fetchProtocol), TrimSpace(s.countryCode);
    && (EqualFold(protocol, "http") || EqualFold(protocol, "https") || EqualFold(protocol, "socks5"))
    && CountryMatches(country)
    && 1 <= s.fetchCount <= 20 && 1 <= s.testConcurrency <= 200
    && s.fetchInterval >= 1 && s.testTimeout >= 1 && s.retestInterval >= 1 && s.exitHold >= 1
    && schemeOf(s.testURL) in {Some("http"), Some("https")}
    && !IsBlank(s.proxyUser) && !IsBlank(s.proxyPass)
  }

  lemma {:induction false} ValidateExactly(s: Settings, schemeOf: SchemeOf)
    ensures Validate(s, schemeOf).None? <==> Acceptable(s, schemeOf)
  {
    hide TrimSpace, IsBlank;
    LowerLiterals();
    CountryMatchesNormal(s.countryCode);
    BlankMeansNothingLeft(s.proxyUser);
    BlankMeansNothingLeft(s.proxyPass);
  }

  lemma {:induction false} LowerLiterals()
    ensures ToLower("http") == "http" && ToLower("https") == "https" && ToLower("socks5") == "socks5"
    ensures ToLower("ALL") == "all" == ToLower("all")
  {
  }

  lemma {:induction false} CountryMatchesNormal(c: string)
    ensures CountryMatches(NormalCountry(c)) <==> CountryMatches(TrimSpace(c))
  {
    hide TrimSpace;
    LowerLiterals();
    CaseTwice(TrimSpace(c));
  }

  /** Every complaint is true. */
  lemma {:induction false} ComplaintsAreTrue(s: Settings, schemeOf: SchemeOf)
    ensures match Validate(s, schemeOf)
            case None => true
            case Some(BadProtocol) =>
              var p := TrimSpace(s.fetchProtocol);
              !EqualFold(p, "http") && !EqualFold(p, "https") && !EqualFold(p, "socks5")
            case Some(BadCountry) => !CountryMatches(TrimSpace(s.countryCode))
            case Some(BadFetchCount) => !(1 <= s.fetchCount <= 20)
            case Some(BadFetchInterval) => s.fetchInterval < 1
            case Some(BadTestURL) => schemeOf(s.testURL) == None
            case Some(BadTestScheme) => schemeOf(s.testURL) !in {None, Some("http"), Some("https")}
            case Some(BadTestTimeout) => s.testTimeout < 1
            case Some(BadRetestInterval) => s.retestInterval < 1
            case Some(BadConcurrency) => !(1 <= s.testConcurrency <= 200)
            case Some(BadHold) => s.exitHold < 1
            case Some(NoProxyCredentials) => IsBlank(s.proxyUser) || IsBlank(s.proxyPass)
  {
    hide TrimSpace, IsBlank, NormalCountry, CountryMatches;
    LowerLiterals();
    CountryMatchesNormal(s.countryCode);
    BlankMeansNothingLeft(s.proxyUser);
    BlankMeansNothingLeft(s.proxyPass);
  }

  /** Country codes: `all` or two letters, in either case. */
  lemma {:induction false} CountryMatchesExactly(c: string)
    ensures CountryMatches(c) <==>
              || (|c| == 3 && c[0] in {'a', 'A'} && c[1] in {'l', 'L'} && c[2] in {'l', 'L'})
              || (|c| == 2 && forall k :: 0 <= k < 2 ==> 'a' <= c[k] <= 'z' || 'A' <= c[k] <= 'Z')
  {
    EqualFoldExactly(c, "all");
    hide EqualFold;
    assert |"all"| == 3 && "all"[0] == 'a' && "all"[1] == 'l' && "all"[2] == 'l';
  }

  // ----- patches -----

  datatype Patch = Patch(
    apiKey: Option<string>,
    fetchProtocol: Option<string>, countryCode: Option<string>, fetchCount: Option<int>, fetchInterval: Option<int>,
    testURL: Option<string>, testTimeout: Option<int>, retestInterval: Option<int>, testConcurrency: Option<int>,
    exitHold: Option<int>,
    proxyUser: Option<string>, proxyPass: Option<string>, adminUser: Option<string>, adminPass: Option<string>)

  function Set<T>(old': T, new': Option<T>): T {
    if new'.Some? then new'.value else old'
  }

  /** A blank text does not erase what is there. */
  function SetUnlessBlank(old': string, new': Option<string>): string {
    if new'.Some? && TrimSpace(new'.value) != "" then new'.value else old'
  }

  function ApplyPatch(s: Settings, p: Patch): Settings {
    Settings(
      SetUnlessBlank(s.apiKey, p.apiKey),
      Set(s.fetchProtocol, p.fetchProtocol), Set(s.countryCode, p.countryCode),
      Set(s.fetchCount, p.fetchCount), Set(s.fetchInterval, p.fetchInterval),
      Set(s.testURL, p.testURL), Set(s.testTimeout, p.testTimeout),
      Set(s.retestInterval, p.retestInterval), Set(s.testConcurrency, p.testConcurrency),
      Set(s.exitHold, p.exitHold),
      SetUnlessBlank(s.proxyUser, p.proxyUser), SetUnlessBlank(s.proxyPass, p.proxyPass),
      if p.adminUser.Some? then TrimSpace(p.adminUser.value) else s.adminUser,
      SetUnlessBlank(s.adminPass, p.adminPass))
  }

  /** No patch can blank a secret that is set, so none is ever refused for missing credentials. */
  lemma {:induction false} PatchKeepsSecrets(s: Settings, p: Patch, schemeOf: SchemeOf)
    ensures var u := ApplyPatch(s, p);
            && (!IsBlank(s.apiKey) ==> !IsBlank(u.apiKey))
            && (!IsBlank(s.adminPass) ==> !IsBlank(u.adminPass))
            && (Validate(s, schemeOf).None? ==> !IsBlank(u.proxyUser) && !IsBlank(u.proxyPass))
            && (Validate(s, schemeOf).None? ==> Validate(u, schemeOf) != Some(NoProxyCredentials))
  {
    hide TrimSpace, IsBlank, NormalCountry;
    KeepsNonBlank(s.apiKey, p.apiKey);
    KeepsNonBlank(s.adminPass, p.adminPass);
    KeepsNonBlank(s.proxyUser, p.proxyUser);
    KeepsNonBlank(s.proxyPass, p.proxyPass);
  }

  lemma {:induction false} KeepsNonBlank(old': string, new': Option<string>)
    ensures TrimSpace(old') != "" ==> TrimSpace(SetUnlessBlank(old', new')) != ""
    ensures IsBlank(old') <==> TrimSpace(old') == ""
    ensures IsBlank(SetUnlessBlank(old', new')) <==> TrimSpace(SetUnlessBlank(old', new')) == ""
  {
  }

  // ----- what a patch does, field by field -----

  /** A field takes the value that is given, and keeps its own if none is. */
  ghost predicate Takes<T>(before: T, given: Option<T>, after: T) {
    after == if given.None? then before else given.value
  }

  /** Blank texts do not count as given. */
  ghost function NonBlank(given: Option<string>): Option<string> {
    if given.Some? && !IsBlank(given.value) then given else None
  }

  ghost function Trimmed(given: Option<string>): Option<string> {
    if given.Some? then Some(TrimSpace(given.value)) else None
  }

  /** The protocol as published: in lower case, without blanks around it. */
  ghost predicate IsProtocol(published: string, text: string) {
    published == ToLower(TrimSpace(text))
  }

  /** The country as published: the same letters without blanks around them, `all` in lower case and
      any other code in upper case. */
  ghost predicate IsCountry(published: string, text: string) {
    && EqualFold(published, TrimSpace(text))
    && published == (if EqualFold(TrimSpace(text), "all") then "all" else ToUpper(TrimSpace(text)))
  }

  /** The settings `u` are `s` with what the patch gives. */
  ghost predicate Patched(s: Settings, p: Patch, u: Settings) {
    && Takes(s.apiKey, NonBlank(p.apiKey), u.apiKey)
    && IsProtocol(u.fetchProtocol, if p.fetchProtocol.Some? then p.fetchProtocol.value else s.fetchProtocol)
    && IsCountry(u.countryCode, if p.countryCode.Some? then p.countryCode.value else s.countryCode)
    && Takes(s.fetchCount, p.fetchCount, u.fetchCount)
    && Takes(s.fetchInterval, p.fetchInterval, u.fetchInterval)
    && Takes(s.testURL, p.testURL, u.testURL)
    && Takes(s.testTimeout, p.testTimeout, u.testTimeout)
    && Takes(s.retestInterval, p.retestInterval, u.retestInterval)
    && Takes(s.testConcurrency, p.testConcurrency, u.testConcurrency)
    && Takes(s.exitHold, p.exitHold, u.exitHold)
    && Takes(s.proxyUser, NonBlank(p.proxyUser), u.proxyUser)
    && Takes(s.proxyPass, NonBlank(p.proxyPass), u.proxyPass)
    && Takes(s.adminUser, Trimmed(p.adminUser), u.adminUser)
    && Takes(s.adminPass, NonBlank(p.adminPass), u.adminPass)
  }

  /** A patched, normalised record is exactly that. */
  lemma {:induction false} PatchIsExact(s: Settings, p: Patch)
    ensures Patched(s, p, Normalized(ApplyPatch(s, p)))
  {
    hide TrimSpace, IsBlank, NormalCountry, IsCountry;
    var c := if p.countryCode.Some? then p.countryCode.value else s.countryCode;
    CountryIs(c);
    NotErased(s.apiKey, p.apiKey);
    NotErased(s.proxyUser, p.proxyUser);
    NotErased(s.proxyPass, p.proxyPass);
    NotErased(s.adminPass, p.adminPass);
  }

  lemma {:induction false} NotErased(old': string, new': Option<string>)
    ensures Takes(old', NonBlank(new'), SetUnlessBlank(old', new'))
  {
    hide TrimSpace, IsBlank;
    if new'.Some? {
      BlankMeansNothingLeft(new'.value);
    }
  }

  lemma {:induction false} CountryIs(c: string)
    ensures IsCountry(NormalCountry(c), c)
  {
    hide TrimSpace;
    LowerLiterals();
    CaseTwice(TrimSpace(c));
  }

  /** The admin login follows the proxy login when the admin user is empty. */
  function AdminCreds(s: Settings): (string, string) {
    if s.adminUser == "" then (s.proxyUser, s.proxyPass) else (s.adminUser, s.adminPass)
  }

  /** So a blank admin user in a patch makes the two logins the same again, and another sets its own. */
  lemma {:induction false} BlankAdminFollowsProxy(s: Settings, p: Patch)
    requires p.adminUser.Some?
    ensures var u := ApplyPatch(s, p);
            u.adminUser == "" <==> IsBlank(p.adminUser.value)
    ensures var u := ApplyPatch(s, p);
            AdminCreds(u) == if IsBlank(p.adminUser.value) then (u.proxyUser, u.proxyPass)
                             else (TrimSpace(p.adminUser.value), u.adminPass)
  {
  }

  // ----- derived durations: 64-bit nanoseconds -----

  const SECOND: int := Rotation.SECOND
  const MAX_SECONDS: int := 9_223_372_036

  function Wrap64(n: int): int {
    (n - MIN_INT64) % 0x1_0000_0000_0000_0000 + MIN_INT64
  }

  /** `time.Duration(secs) * time.Second`. */
  function Seconds(secs: int): int {
    Wrap64(secs * SECOND)
  }

  function HoldFromSettings(s: Settings): int {
    var hold := Seconds(s.exitHold);
    if hold < SECOND then SECOND else hold
  }

  function TestTimeout(s: Settings): int {
    var timeout := Seconds(s.testTimeout);
    if timeout < SECOND then 5 * SECOND else timeout
  }

  function TestLimit(s: Settings): int {
    if s.testConcurrency < 1 then 1 else s.testConcurrency
  }

  lemma {:induction false} WrapKeeps(n: int)
    ensures MIN_INT64 <= Wrap64(n) <= MAX_INT64
    ensures MIN_INT64 <= n <= MAX_INT64 <==> Wrap64(n) == n
  {
  }

  /** Values below one, which are not valid, fall back to one second, five seconds and one test. */
  lemma {:induction false} FallbacksAre(s: Settings)
    ensures -9_223_372_036 <= s.exitHold < 1 ==> HoldFromSettings(s) == 1_000_000_000
    ensures -9_223_372_036 <= s.testTimeout < 1 ==> TestTimeout(s) == 5_000_000_000
    ensures s.testConcurrency < 1 ==> TestLimit(s) == 1
  {
    WrapKeeps(s.exitHold * SECOND);
    WrapKeeps(s.testTimeout * SECOND);
  }

  ghost predicate Positive(s: Settings) {
    s.testConcurrency >= 1 && s.exitHold >= 1 && s.testTimeout >= 1
  }

  lemma {:induction false} ValidIsPositive(s: Settings, schemeOf: SchemeOf)
    ensures Validate(s, schemeOf).None? ==> Positive(s)
  {
    hide TrimSpace, ToLower, NormalCountry, CountryMatches;
  }

  /** With positive settings, as valid ones are, the limit is as configured, and a hold or timeout is
      as configured exactly when it fits in 9,223,372,036 seconds; beyond that the product overflows. */
  lemma {:induction false} ClampsNeverFire(s: Settings)
    requires Positive(s)
    ensures TestLimit(s) == s.testConcurrency
    ensures HoldFromSettings(s) == s.exitHold * SECOND <==> s.exitHold <= MAX_SECONDS
    ensures TestTimeout(s) == s.testTimeout * SECOND <==> s.testTimeout <= MAX_SECONDS
  {
    WrapKeeps(s.exitHold * SECOND);
    WrapKeeps(s.testTimeout * SECOND);
  }

  /** The rotator's own fallback never applies to a hold made from settings; to the unclamped product
      that the admin server passes it applies only beyond the same bound. */
  lemma {:induction false} MinuteNeverUsed(s: Settings)
    requires Positive(s)
    ensures Rotation.HoldOrMinute(HoldFromSettings(s)) == HoldFromSettings(s)
    ensures Rotation.HoldOrMinute(Seconds(s.exitHold)) == s.exitHold * SECOND <==> s.exitHold <= MAX_SECONDS
  {
    WrapKeeps(s.exitHold * SECOND);
  }

  /** One second more and the hold becomes negative, so the clamps replace it. */
  lemma {:induction false} HoldOverflows(s: Settings)
    requires s.exitHold == MAX_SECONDS + 1
    ensures Seconds(s.exitHold) < 0 && HoldFromSettings(s) == SECOND
  {
  }
}
