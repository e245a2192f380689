/** The settings manager: settings are written through to the store before they are published, and
    read back at the next start. */
module SettingsManager {
  import opened Text
  import Rotation
  import opened Settings

  /** The text in the settings row: the encoding of some settings, or nothing that decodes. */
  datatype Stored = Encoded(settings: Settings) | Unreadable

  /** The row, and what is published while the process runs. */
  datatype Site = Site(row: Option<Stored>, live: Option<Settings>)

  datatype Event =
    | Start(initial: Settings, readFault: bool, writeFault: bool)
    | Update(patch: Patch, writeFault: bool)
    | Stop

  predicate Valid(s: Settings, schemeOf: SchemeOf) {
    Validate(s, schemeOf).None?
  }

  /** What a start publishes, if it succeeds: the stored settings, or the initial ones if none are. */
  function Started(row: Option<Stored>, initial: Settings, readFault: bool, writeFault: bool,
                   schemeOf: SchemeOf): Option<Settings> {
    if !Valid(Normalized(initial), schemeOf) || readFault then None
    else
      match row
      case None => if writeFault then None else Some(Normalized(initial))
      case Some(Unreadable) => None
      case Some(Encoded(s)) => if Valid(Normalized(s), schemeOf) then Some(Normalized(s)) else None
  }

  function Updated(cur: Settings, patch: Patch): Settings {
    Normalized(ApplyPatch(cur, patch))
  }

  function Happen(site: Site, e: Event, schemeOf: SchemeOf): Site {
    match e
    case Start(initial, readFault, writeFault) =>
      if site.live.Some? then site
      else
        var live := Started(site.row, initial, readFault, writeFault, schemeOf);
        Site(if live.Some? && site.row.None? then Some(Encoded(live.value)) else site.row, live)
    case Update(patch, writeFault) =>
      if site.live.None? || writeFault || !Valid(Updated(site.live.value, patch), schemeOf) then site
      else
        var next := Updated(site.live.value, patch);
        Site(Some(Encoded(next)), Some(next))
    case Stop => site.(live := None)
  }

  function Play(site: Site, es: seq<Event>, schemeOf: SchemeOf): Site
    decreases es
  {
    if es == [] then site else Play(Happen(site, es[0], schemeOf), es[1..], schemeOf)
  }

  // ----- every run -----

  /** What is published is normalised, valid, and what the row decodes to. */
  ghost predicate Inv(site: Site, schemeOf: SchemeOf) {
    site.live.Some? ==>
      && Loads(site.row, site.live.value)
      && Normalized(site.live.value) == site.live.value
      && Valid(site.live.value, schemeOf)
  }

  ghost predicate Loads(row: Option<Stored>, s: Settings) {
    row.Some? && row.value.Encoded? && Normalized(row.value.settings) == s
  }

  lemma {:induction false} HappenKeeps(site: Site, e: Event, schemeOf: SchemeOf)
    requires Inv(site, schemeOf)
    ensures Inv(Happen(site, e, schemeOf), schemeOf)
  {
    hide Normalized, Validate, ApplyPatch;
    match e
    case Start(initial, _, _) =>
      NormalizeIdempotent(initial, schemeOf);
      if site.row.Some? && site.row.value.Encoded? {
        NormalizeIdempotent(site.row.value.settings, schemeOf);
      }
    case Update(patch, _) =>
      if site.live.Some? {
        NormalizeIdempotent(ApplyPatch(site.live.value, patch), schemeOf);
      }
    case Stop =>
  }

  /** Over any sequence of starts, updates, failed reads and writes, and stops, from any row. */
  lemma {:induction false} PlayKeeps(site: Site, es: seq<Event>, schemeOf: SchemeOf)
    requires Inv(site, schemeOf)
    ensures Inv(Play(site, es, schemeOf), schemeOf)
    decreases es
  {
    if es != [] {
      HappenKeeps(site, es[0], schemeOf);
      PlayKeeps(Happen(site, es[0], schemeOf), es[1..], schemeOf);
    }
  }

  /** Whatever has happened, stopping and starting again with any valid initial settings publishes
      exactly what was published before, writes nothing, and fails only if the row cannot be read. */
  lemma {:induction false} RestartRestores(row: Option<Stored>, es: seq<Event>, initial: Settings,
                                           readFault: bool, writeFault: bool, schemeOf: SchemeOf)
    ensures var site := Play(Site(row, None), es, schemeOf);
            site.live.Some? && Valid(initial, schemeOf) ==>
              Happen(Happen(site, Stop, schemeOf), Start(initial, readFault, writeFault), schemeOf)
                == if readFault then site.(live := None) else site
  {
    hide Normalized, Validate;
    PlayKeeps(Site(row, None), es, schemeOf);
    NormalizeIdempotent(initial, schemeOf);
  }

  /** So whatever is published is used as it is: limits always, holds and timeouts up to the bound
      at which 64-bit nanoseconds overflow, and not beyond. */
  lemma {:induction false} PublishedNeverClamped(row: Option<Stored>, es: seq<Event>, schemeOf: SchemeOf)
    ensures var live := Play(Site(row, None), es, schemeOf).live;
            live.Some? ==>
              var s := live.value;
              && TestLimit(s) == s.testConcurrency
              && (HoldFromSettings(s) == s.exitHold * SECOND <==> s.exitHold <= MAX_SECONDS)
              && (TestTimeout(s) == s.testTimeout * SECOND <==> s.testTimeout <= MAX_SECONDS)
              && Rotation.HoldOrMinute(HoldFromSettings(s)) == HoldFromSettings(s)
              && (Rotation.HoldOrMinute(Seconds(s.exitHold)) == s.exitHold * SECOND <==> s.exitHold <= MAX_SECONDS)
  {
    hide Play, Validate, TestLimit, HoldFromSettings, TestTimeout;
    PlayKeeps(Site(row, None), es, schemeOf);
    var live := Play(Site(row, None), es, schemeOf).live;
    if live.Some? {
      ValidIsPositive(live.value, schemeOf);
      ClampsNeverFire(live.value);
      MinuteNeverUsed(live.value);
    }
  }

  predicate Accepts(site: Site, e: Event, schemeOf: SchemeOf) {
    e.Update? && site.live.Some? && !e.writeFault && Valid(Updated(site.live.value, e.patch), schemeOf)
  }

  /** The patches of the updates that a run accepts. */
  function Accepted(site: Site, es: seq<Event>, schemeOf: SchemeOf): seq<Patch>
    decreases es
  {
    if es == [] then []
    else
      (if Accepts(site, es[0], schemeOf) then [es[0].patch] else [])
      + Accepted(Happen(site, es[0], schemeOf), es[1..], schemeOf)
  }

  function Replay(s: Settings, patches: seq<Patch>): Settings
    decreases patches
  {
    if patches == [] then s else Replay(Updated(s, patches[0]), patches[1..])
  }

  /** Once the row decodes to some settings, it always decodes to the replay of the patches accepted
      since, and that is what is published while the process runs: failed updates, failed starts and
      restarts leave no trace. */
  lemma {:induction false} OnlyAcceptedUpdatesCount(site: Site, s: Settings, es: seq<Event>, schemeOf: SchemeOf)
    ensures var end := Play(site, es, schemeOf);
            Inv(site, schemeOf) && Loads(site.row, s) ==>
              && Loads(end.row, Replay(s, Accepted(site, es, schemeOf)))
              && (end.live.Some? ==> end.live.value == Replay(s, Accepted(site, es, schemeOf)))
    decreases es
  {
    hide Normalized, Validate, ApplyPatch;
    if es != [] && Inv(site, schemeOf) && Loads(site.row, s) {
      var e := es[0];
      var next := Happen(site, e, schemeOf);
      HappenKeeps(site, e, schemeOf);
      if Accepts(site, e, schemeOf) {
        NormalizeIdempotent(ApplyPatch(s, e.patch), schemeOf);
        var rest := Accepted(next, es[1..], schemeOf);
        OnlyAcceptedUpdatesCount(next, Updated(s, e.patch), es[1..], schemeOf);
        assert Replay(s, [e.patch] + rest) == Replay(Updated(s, e.patch), ([e.patch] + rest)[1..]);
        assert ([e.patch] + rest)[1..] == rest;
      } else {
        assert next.row == site.row;
        OnlyAcceptedUpdatesCount(next, s, es[1..], schemeOf);
        assert [] + Accepted(next, es[1..], schemeOf) == Accepted(next, es[1..], schemeOf);
      }
    }
  }

  // ----- the last writer wins -----

  /** Once some settings are published, every later run publishes, while it does, what the last accepted
      patch that names a field gave it, or the value it had; so does the row, in between. */
  lemma {:induction false} LastAcceptedPatchWins(site: Site, es: seq<Event>, schemeOf: SchemeOf)
    requires site.live.Some?
    ensures var s, end := site.live.value, Play(site, es, schemeOf);
            Inv(site, schemeOf) ==>
              && (exists u :: Loads(end.row, u) && LastWins(s, Accepted(site, es, schemeOf), u))
              && (end.live.Some? ==> LastWins(s, Accepted(site, es, schemeOf), end.live.value))
  {
    hide Normalized, Validate, LastWins, Replay, Accepted, Play;
    if Inv(site, schemeOf) {
      var s, ps := site.live.value, Accepted(site, es, schemeOf);
      OnlyAcceptedUpdatesCount(site, s, es, schemeOf);
      LastWriterWins(s, ps);
      assert Loads(Play(site, es, schemeOf).row, Replay(s, ps));
    }
  }

  /** The last value that one of the patches gives a field. */
  ghost function LastGiven<T>(patches: seq<Patch>, field: Patch -> Option<T>): Option<T>
    decreases patches
  {
    if patches == [] then None
    else if LastGiven(patches[1..], field).Some? then LastGiven(patches[1..], field)
    else field(patches[0])
  }

  lemma {:induction false} LastGivenIsLast<T>(patches: seq<Patch>, field: Patch -> Option<T>, v: T)
    ensures LastGiven(patches, field) == Some(v) <==>
              exists i :: 0 <= i < |patches| && field(patches[i]) == Some(v)
                          && forall j :: i < j < |patches| ==> field(patches[j]).None?
    ensures LastGiven(patches, field).None? <==> forall i :: 0 <= i < |patches| ==> field(patches[i]).None?
    decreases patches
  {
    if patches != [] {
      var rest := patches[1..];
      LastGivenIsLast(rest, field, v);
      assert forall k :: 0 <= k < |rest| ==> rest[k] == patches[k + 1];
      if i :| 0 <= i < |rest| && field(rest[i]) == Some(v) && forall j :: i < j < |rest| ==> field(rest[j]).None? {
        assert field(patches[i + 1]) == Some(v);
        assert forall j :: i + 1 < j < |patches| ==> patches[j] == rest[j - 1];
      }
      if i :| 0 <= i < |patches| && field(patches[i]) == Some(v)
              && forall j :: i < j < |patches| ==> field(patches[j]).None? {
        if i > 0 {
          assert rest[i - 1] == patches[i];
        }
      }
    }
  }

  /** Each field is what the last patch that gives it says, or as it was at the start. */
  ghost predicate LastWins(s: Settings, ps: seq<Patch>, u: Settings) {
    && Takes(s.apiKey, LastGiven(ps, (p: Patch) => NonBlank(p.apiKey)), u.apiKey)
    && IsProtocol(u.fetchProtocol, Given(s.fetchProtocol, LastGiven(ps, (p: Patch) => p.fetchProtocol)))
    && IsCountry(u.countryCode, Given(s.countryCode, LastGiven(ps, (p: Patch) => p.countryCode)))
    && Takes(s.fetchCount, LastGiven(ps, (p: Patch) => p.fetchCount), u.fetchCount)
    && Takes(s.fetchInterval, LastGiven(ps, (p: Patch) => p.fetchInterval), u.fetchInterval)
    && Takes(s.testURL, LastGiven(ps, (p: Patch) => p.testURL), u.testURL)
    && Takes(s.testTimeout, LastGiven(ps, (p: Patch) => p.testTimeout), u.testTimeout)
    && Takes(s.retestInterval, LastGiven(ps, (p: Patch) => p.retestInterval), u.retestInterval)
    && Takes(s.testConcurrency, LastGiven(ps, (p: Patch) => p.testConcurrency), u.testConcurrency)
    && Takes(s.exitHold, LastGiven(ps, (p: Patch) => p.exitHold), u.exitHold)
    && Takes(s.proxyUser, LastGiven(ps, (p: Patch) => NonBlank(p.proxyUser)), u.proxyUser)
    && Takes(s.proxyPass, LastGiven(ps, (p: Patch) => NonBlank(p.proxyPass)), u.proxyPass)
    && Takes(s.adminUser, LastGiven(ps, (p: Patch) => Trimmed(p.adminUser)), u.adminUser)
    && Takes(s.adminPass, LastGiven(ps, (p: Patch) => NonBlank(p.adminPass)), u.adminPass)
  }

  ghost function Given(before: string, given: Option<string>): string {
    if given.Some? then given.value else before
  }

  lemma {:induction false} NormalizedIs(s: Settings)
    requires Normalized(s) == s
    ensures IsProtocol(s.fetchProtocol, s.fetchProtocol) && IsCountry(s.countryCode, s.countryCode)
  {
    hide TrimSpace, NormalCountry, IsCountry;
    CountryIs(s.countryCode);
  }

  lemma {:induction false} PublishedAgain(c: string, b: string, a: string)
    ensures IsProtocol(c, b) && IsProtocol(b, a) ==> IsProtocol(c, a)
    ensures IsCountry(c, b) && IsCountry(b, a) ==> IsCountry(c, a)
  {
    hide TrimSpace, ToLower, NormalCountry, IsCountry;
    ProtocolTwice(a);
    OneCountry(c, b);
    OneCountry(b, a);
    NormalCountryTwice(a);
    CountryIs(a);
  }

  lemma {:induction false} OneCountry(c: string, a: string)
    ensures IsCountry(c, a) ==> c == NormalCountry(a)
  {
    hide TrimSpace;
    LowerLiterals();
    CaseTwice(TrimSpace(a));
  }

  /** Replaying patches is letting the last writer of each field win. */
  lemma {:induction false} LastWriterWins(s: Settings, ps: seq<Patch>)
    requires Normalized(s) == s
    ensures LastWins(s, ps, Replay(s, ps))
    decreases ps
  {
    hide Normalized, ApplyPatch, IsProtocol, IsCountry, NonBlank, Trimmed;
    if ps == [] {
      NormalizedIs(s);
    } else {
      PatchIsExact(s, ps[0]);
      NormalizeIdempotent(ApplyPatch(s, ps[0]), _ => None);
      var t := Updated(s, ps[0]);
      LastWriterWins(t, ps[1..]);
      var u := Replay(s, ps);
      PublishedAgain(u.fetchProtocol, t.fetchProtocol, Given(s.fetchProtocol, ps[0].fetchProtocol));
      PublishedAgain(u.countryCode, t.countryCode, Given(s.countryCode, ps[0].countryCode));
    }
  }

  // ----- the manager -----

  class SettingsTable {
    var row: Option<Stored>

    constructor (row: Option<Stored>)
      ensures this.row == row
    {
      this.row := row;
    }

    method GetSettingsJSON(fault: bool) returns (ok: bool, text: Option<Stored>)
      ensures ok <==> !fault
      ensures ok ==> text == row
    {
      return !fault, if fault then None else row;
    }

    method UpsertSettingsJSON(text: Stored, fault: bool) returns (ok: bool)
      modifies this
      ensures ok <==> !fault
      ensures row == if ok then Some(text) else old(row)
    {
      if fault {
        return false;
      }
      row := Some(text);
      return true;
    }
  }

  class Manager {
    const db: SettingsTable
    var v: Settings

    constructor (db: SettingsTable, v: Settings)
      ensures this.db == db && this.v == v
    {
      this.db, this.v := db, v;
    }

    function Get(): Settings
      reads this
    {
      v
    }

    /** Publishes the patched settings once they are valid and stored; otherwise nothing changes. */
    method Update(patch: Patch, writeFault: bool, schemeOf: SchemeOf) returns (ok: bool, result: Settings)
      modifies this, db
      ensures ok ==> Patched(old(v), patch, v) && db.row == Some(Encoded(v))
      ensures !ok ==> v == old(v) && db.row == old(db.row)
      ensures Site(db.row, Some(v))
           == Happen(Site(old(db.row), Some(old(v))), Event.Update(patch, writeFault), schemeOf)
      ensures ok <==> Valid(Updated(old(v), patch), schemeOf) && !writeFault
      ensures result == v
    {
      hide Normalized, Validate, ApplyPatch, Patched;
      PatchIsExact(v, patch);
      var cur := Get();
      var next := Normalized(ApplyPatch(cur, patch));
      if Validate(next, schemeOf).Some? {
        return false, cur;
      }
      ok := db.UpsertSettingsJSON(Encoded(next), writeFault);
      if !ok {
        return false, cur;
      }
      v := next;
      return true, next;
    }
  }

  method NewManager(db: SettingsTable, initial: Settings, readFault: bool, writeFault: bool, schemeOf: SchemeOf)
      returns (ok: bool, m: Manager?)
    modifies db
    ensures ok <==> m != null
    ensures m != null ==> m.db == db && fresh(m)
    ensures Site(db.row, if m == null then None else Some(m.v))
         == Happen(Site(old(db.row), None), Start(initial, readFault, writeFault), schemeOf)
    ensures m != null <==> Valid(Normalized(initial), schemeOf) && !readFault
                           && match old(db.row)
                              case None => !writeFault
                              case Some(Encoded(s)) => Valid(Normalized(s), schemeOf)
                              case Some(Unreadable) => false
    ensures m != null ==>
              match old(db.row)
              case Some(Encoded(s)) => m.v == Normalized(s) && db.row == old(db.row)
              case _ => m.v == Normalized(initial) && db.row == Some(Encoded(Normalized(initial)))
    ensures m == null ==> db.row == old(db.row)
  {
    hide Normalized, Validate;
    var init := Normalized(initial);
    if Validate(init, schemeOf).Some? {
      return false, null;
    }
    var read, text := db.GetSettingsJSON(readFault);
    if !read {
      return false, null;
    }
    if text.Some? {
      if text.value.Unreadable? {
        return false, null;
      }
      var fromDB := Normalized(text.value.settings);
      if Validate(fromDB, schemeOf).Some? {
        return false, null;
      }
      m := new Manager(db, fromDB);
      return true, m;
    }
    var written := db.UpsertSettingsJSON(Encoded(init), writeFault);
    if !written {
      return false, null;
    }
    m := new Manager(db, init);
    return true, m;
  }
}
