/**
 * The credential harvester (get.py): after an interactive login it reads the
 * browser's cookies, selects the identity cookie and its partner by name
 * precedence, and either saves both to `.env`, warns that the partner is
 * missing, or reports that the identity cookie is missing.
 */
module Harvester {
  import opened Wrappers
  import opened Cookies
  import opened EnvFile

  /** A browser cookie as the automation driver reports it (only the fields used here). */
  datatype Cookie = Cookie(name: string, value: string)

  const PsidNames: seq<string> := ["__Secure-1PSID", "Secure_1PSID"]

  /** Partner names with the legacy TS names ahead of the newer CC names. */
  const LegacyPartnerNames: seq<string> := ["__Secure-1PSIDTS", "Secure_1PSIDTS"]
  const CurrentPartnerNames: seq<string> := ["__Secure-1PSIDCC", "Secure_1PSIDCC"]
  const PsidPartnerNames: seq<string> := LegacyPartnerNames + CurrentPartnerNames

  /** The cookie list folded left into a jar: a name seen twice keeps its later value. */
  function CookieMap(cookies: seq<Cookie>): (jar: Jar)
    ensures forall name :: name in jar <==> exists i :: 0 <= i < |cookies| && cookies[i].name == name
  {
    if cookies == [] then map[]
    else
      var init := cookies[..|cookies| - 1];
      var last := cookies[|cookies| - 1];
      assert forall i :: 0 <= i < |init| ==> init[i] == cookies[i];
      CookieMap(init)[last.name := last.value]
  }

  /** Looking up a cookie by name. */
  function ExtractCookie(cookies: seq<Cookie>, candidates: seq<string>): Option<string> {
    Select(CookieMap(cookies), candidates)
  }

  /** The jar holds, for each name, the value of the last cookie of that name in the list. */
  lemma {:induction false} LastOccurrenceWins(cookies: seq<Cookie>, i: nat)
    requires i < |cookies|
    requires forall j :: i < j < |cookies| ==> cookies[j].name != cookies[i].name
    ensures cookies[i].name in CookieMap(cookies)
    ensures CookieMap(cookies)[cookies[i].name] == cookies[i].value
  {
    if i < |cookies| - 1 {
      var init := cookies[..|cookies| - 1];
      assert init[i] == cookies[i];
      LastOccurrenceWins(init, i);
    }
  }

  predicate DistinctNames(cookies: seq<Cookie>) {
    forall i, j :: 0 <= i < j < |cookies| ==> cookies[i].name != cookies[j].name
  }

  /** With distinct names the jar does not depend on the order of the cookie list. */
  lemma OrderIrrelevant(a: seq<Cookie>, b: seq<Cookie>)
    requires DistinctNames(a) && DistinctNames(b)
    requires forall c :: c in a <==> c in b
    ensures CookieMap(a) == CookieMap(b)
  {
    var ma, mb := CookieMap(a), CookieMap(b);
    forall name | name in ma ensures name in mb && ma[name] == mb[name] {
      var i :| 0 <= i < |a| && a[i].name == name;
      LastOccurrenceWins(a, i);
      assert a[i] in b;
      var j :| 0 <= j < |b| && b[j] == a[i];
      LastOccurrenceWins(b, j);
    }
    forall name | name in mb ensures name in ma {
      var j :| 0 <= j < |b| && b[j].name == name;
      assert b[j] in a;
    }
  }

  /**
   * `_extract_cookie` returns the value of the first candidate that names some
   * cookie (the last cookie of that name), and `None` exactly when no
   * candidate names a cookie.
   */
  lemma ExtractCookieFirst(cookies: seq<Cookie>, candidates: seq<string>, i: nat, j: nat)
    requires i < |candidates| && j < |cookies| && cookies[j].name == candidates[i]
    requires forall k :: j < k < |cookies| ==> cookies[k].name != candidates[i]
    requires forall c, k :: 0 <= c < i && 0 <= k < |cookies| ==> cookies[k].name != candidates[c]
    ensures ExtractCookie(cookies, candidates) == Some(cookies[j].value)
  {
    LastOccurrenceWins(cookies, j);
    SelectFirst(CookieMap(cookies), candidates, i);
  }

  lemma ExtractCookieNone(cookies: seq<Cookie>, candidates: seq<string>)
    ensures ExtractCookie(cookies, candidates).None? <==>
      forall c, k :: 0 <= c < |candidates| && 0 <= k < |cookies| ==> cookies[k].name != candidates[c]
  {
  }

  /** Whenever a legacy TS partner cookie is present it is chosen over any CC cookie. */
  lemma LegacyPartnerWins(cookies: seq<Cookie>)
    requires ExtractCookie(cookies, LegacyPartnerNames).Some?
    ensures ExtractCookie(cookies, PsidPartnerNames) == ExtractCookie(cookies, LegacyPartnerNames)
  {
    SelectSplit(CookieMap(cookies), LegacyPartnerNames, CurrentPartnerNames);
  }

  /** The `lines` list `_write_env` builds: the identity line, then the partner line if the partner is non-empty. */
  function EnvLines(sid: string, partner: Option<string>): seq<string> {
    [PsidKey + "=" + sid] + if NonEmpty(partner) then [PartnerKey + "=" + partner.value] else []
  }

  /** `sep.join(parts)`. */
  function Join(sep: string, parts: seq<string>): string {
    if parts == [] then ""
    else if |parts| == 1 then parts[0]
    else parts[0] + sep + Join(sep, parts[1..])
  }

  /** The whole text `_write_env` writes, with `sep` standing for `os.linesep`. */
  function EnvContent(sid: string, partner: Option<string>, sep: string): string {
    Join(sep, EnvLines(sid, partner)) + sep
  }

  /**
   * The written text is the identity line followed by the partner line when
   * the partner is non-empty, each terminated by the separator.
   */
  lemma EnvContentShape(sid: string, partner: Option<string>, sep: string)
    ensures EnvContent(sid, partner, sep) ==
      PsidKey + "=" + sid + sep + if NonEmpty(partner) then PartnerKey + "=" + partner.value + sep else ""
  {
    var ls := EnvLines(sid, partner);
    var first := PsidKey + "=" + sid;
    if NonEmpty(partner) {
      var second := PartnerKey + "=" + partner.value;
      assert ls == [first, second];
      assert ls[1..] == [second];
      assert Join(sep, ls) == first + sep + second;
      assert EnvContent(sid, partner, sep) == first + sep + second + sep;
    } else {
      assert ls == [first];
    }
  }

  /** What the harvester reports at the end of a run. */
  datatype Report =
    | Saved(psid: string, partner: string)          // both found, written to .env
    | Found(psid: string, partner: string)          // both found, saving switched off
    | PartnerMissing(psid: string)                  // warning: copy the partner by hand
    | PsidMissing                                   // failure: not logged in

  /** The result of `fetch_cookies`: the cookie names listed (if any), the report, and the `.env` text afterwards. */
  datatype Harvest = Harvest(listed: Option<set<string>>, report: Report, env: Option<string>)

  function Names(cookies: seq<Cookie>): set<string> {
    set c | c in cookies :: c.name
  }

  /**
   * The decision `fetch_cookies` makes from the cookies the browser yields.
   * `env` is the `.env` text before the run (`None`: no such file);
   * `saveToEnv` is the SAVE_TO_ENV setting and `sep` is `os.linesep`.
   */
  function FetchCookies(cookies: seq<Cookie>, listAlways: bool, saveToEnv: bool, sep: string,
                        env: Option<string>): (h: Harvest)
    ensures h.listed.Some? <==> listAlways || !NonEmpty(ExtractCookie(cookies, PsidPartnerNames))
    ensures h.listed.Some? ==> h.listed.value == Names(cookies)
    ensures h.report.Saved? <==>
      NonEmpty(ExtractCookie(cookies, PsidNames)) && NonEmpty(ExtractCookie(cookies, PsidPartnerNames)) && saveToEnv
    ensures h.report.PartnerMissing? <==>
      NonEmpty(ExtractCookie(cookies, PsidNames)) && !NonEmpty(ExtractCookie(cookies, PsidPartnerNames))
    ensures h.report.PsidMissing? <==> !NonEmpty(ExtractCookie(cookies, PsidNames))
    ensures h.report.Saved? || h.report.Found? || h.report.PartnerMissing? ==>
      h.report.psid == ExtractCookie(cookies, PsidNames).value
    ensures h.report.Saved? || h.report.Found? ==>
      h.report.partner == ExtractCookie(cookies, PsidPartnerNames).value
    ensures h.report.Saved? ==>
      h.env == Some(PsidKey + "=" + h.report.psid + sep + PartnerKey + "=" + h.report.partner + sep)
    ensures !h.report.Saved? ==> h.env == env
  {
    var psid := ExtractCookie(cookies, PsidNames);
    var partner := ExtractCookie(cookies, PsidPartnerNames);
    var listed := if listAlways || !NonEmpty(partner) then Some(Names(cookies)) else None;
    if NonEmpty(psid) && NonEmpty(partner) then
      if saveToEnv then
        EnvContentShape(psid.value, partner, sep);
        var tail := PartnerKey + "=" + partner.value + sep;
        assert PsidKey + "=" + psid.value + sep + tail
            == PsidKey + "=" + psid.value + sep + PartnerKey + "=" + partner.value + sep;
        Harvest(listed, Saved(psid.value, partner.value), Some(EnvContent(psid.value, partner, sep)))
      else Harvest(listed, Found(psid.value, partner.value), env)
    else if NonEmpty(psid) then Harvest(listed, PartnerMissing(psid.value), env)
    else Harvest(listed, PsidMissing, env)
  }
}
