/**
 * The session keeper (app.py): it refuses to start without both credentials,
 * then a monitor polls the client's live cookie jar; when the partner cookie
 * has rotated it remembers the new value, mirrors it into the environment and
 * upserts it into `.env`, otherwise it advances a heartbeat counter.
 */
module Keeper {
  import opened Wrappers
  import opened Cookies
  import opened TextLines
  import opened EnvFile

  /** Heartbeat dots per output line. */
  const LineWrap: nat := 50

  /** The keeper's partner precedence: both `__Secure-` names ahead of both `Secure_`-prefixed names. */
  const PartnerNames: seq<string> := ["__Secure-1PSIDTS", "__Secure-1PSIDCC", "Secure_1PSIDTS", "Secure_1PSIDCC"]

  /** `_partner_cookie`. */
  function PartnerCookie(jar: Jar): Option<string> {
    Select(jar, PartnerNames)
  }

  /** `_partner_cookie` tries the four names in its fixed order and returns the first one the jar holds. */
  lemma PartnerCookieOrder(jar: Jar)
    ensures PartnerCookie(jar) ==
      if "__Secure-1PSIDTS" in jar then Some(jar["__Secure-1PSIDTS"])
      else if "__Secure-1PSIDCC" in jar then Some(jar["__Secure-1PSIDCC"])
      else if "Secure_1PSIDTS" in jar then Some(jar["Secure_1PSIDTS"])
      else if "Secure_1PSIDCC" in jar then Some(jar["Secure_1PSIDCC"])
      else None
  {
    var ns := PartnerNames;
    assert ns[3..][1..] == [];
    assert ns[2..][1..] == ns[3..];
    assert ns[1..][1..] == ns[2..];
    assert Select(jar, ns[3..]) == if ns[3] in jar then Some(jar[ns[3]]) else Select(jar, []);
    assert Select(jar, ns[2..]) == if ns[2] in jar then Some(jar[ns[2]]) else Select(jar, ns[3..]);
    assert Select(jar, ns[1..]) == if ns[1] in jar then Some(jar[ns[1]]) else Select(jar, ns[2..]);
  }

  // ---------------------------------------------------------------------------
  // Startup check
  // ---------------------------------------------------------------------------

  datatype Credentials = Credentials(psid: string, partner: string)

  datatype ConfigError = MissingCredentials

  /** `os.getenv`. */
  function GetEnv(env: map<string, string>, name: string): Option<string> {
    if name in env then Some(env[name]) else None
  }

  /** The module-level check: both credentials must be set and non-empty. */
  function LoadCredentials(env: map<string, string>): (r: Result<Credentials, ConfigError>)
    ensures r.Ok? <==> PsidKey in env && env[PsidKey] != "" && PartnerKey in env && env[PartnerKey] != ""
    ensures r.Ok? ==> r.value.psid == env[PsidKey] && r.value.partner == env[PartnerKey]
  {
    var psid := GetEnv(env, PsidKey);
    var partner := GetEnv(env, PartnerKey);
    if !NonEmpty(psid) || !NonEmpty(partner) then Err(MissingCredentials)
    else Ok(Credentials(psid.value, partner.value))
  }

  // ---------------------------------------------------------------------------
  // Monitor: the specification
  // ---------------------------------------------------------------------------

  /**
   * The monitor's state: the last partner value seen, the heartbeat counter,
   * the process environment and the text of `.env` (`None`: no such file).
   */
  datatype MonitorState = MonitorState(last: Option<string>, dotCount: nat, env: map<string, string>,
                                       store: Option<string>)

  /** The state when monitoring starts: `last` is the partner value in the jar at that moment. */
  function Start(jar: Jar, env: map<string, string>, store: Option<string>): MonitorState {
    MonitorState(PartnerCookie(jar), 0, env, store)
  }

  /** A tick commits when the selected partner value is non-empty and differs from the last one. */
  predicate Rotated(last: Option<string>, current: Option<string>) {
    NonEmpty(current) && current != last
  }

  /** One tick on the jar snapshot `jar`. */
  function Step(s: MonitorState, jar: Jar): MonitorState {
    var current := PartnerCookie(jar);
    if Rotated(s.last, current) then
      MonitorState(current, 0, s.env[PartnerKey := current.value],
                   Some(UpsertText(s.store, PartnerKey, current.value)))
    else
      var dots := s.dotCount + 1;
      s.(dotCount := if dots >= LineWrap then 0 else dots)
  }

  /** Ticks on each snapshot in turn. */
  function RunAll(s: MonitorState, jars: seq<Jar>): MonitorState
    decreases |jars|
  {
    if jars == [] then s else RunAll(Step(s, jars[0]), jars[1..])
  }

  /**
   * A tick that commits sets `last`, mirrors the value into the environment,
   * upserts it into `.env` and restarts the heartbeat; any other tick leaves
   * all of these alone and advances the heartbeat modulo LineWrap.
   */
  lemma StepEffect(s: MonitorState, jar: Jar)
    requires s.dotCount < LineWrap
    ensures var t := Step(s, jar); var current := PartnerCookie(jar);
      && (Rotated(s.last, current) ==>
            && t.last == current && t.env == s.env[PartnerKey := current.value] && t.dotCount == 0
            && t.store == Some(UpsertText(s.store, PartnerKey, current.value)))
      && (!Rotated(s.last, current) ==>
            && t.last == s.last && t.env == s.env && t.store == s.store
            && t.dotCount == (s.dotCount + 1) % LineWrap)
      && t.dotCount < LineWrap
  {
  }

  /** The partner value each snapshot yields. */
  function Partners(jars: seq<Jar>): (vs: seq<Option<string>>)
    ensures |vs| == |jars|
    ensures forall i :: 0 <= i < |jars| ==> vs[i] == PartnerCookie(jars[i])
  {
    if jars == [] then [] else [PartnerCookie(jars[0])] + Partners(jars[1..])
  }

  /** The values a run of ticks persists, in order, given the observed partner values. */
  function Rotations(last: Option<string>, values: seq<Option<string>>): seq<string>
    decreases |values|
  {
    if values == [] then []
    else if Rotated(last, values[0]) then [values[0].value] + Rotations(values[0], values[1..])
    else Rotations(last, values[1..])
  }

  /** The value `last` holds after the observed partner values. */
  function LastAfter(last: Option<string>, values: seq<Option<string>>): Option<string> {
    var r := Rotations(last, values);
    if r == [] then last else Some(r[|r| - 1])
  }

  /** `.env` after upserting each value in turn. */
  function UpsertAll(store: Option<string>, key: string, values: seq<string>): Option<string>
    decreases |values|
  {
    if values == [] then store else UpsertAll(Some(UpsertText(store, key, values[0])), key, values[1..])
  }

  /** The environment after mirroring the values in turn. */
  function MirrorAll(env: map<string, string>, values: seq<string>): map<string, string> {
    if values == [] then env else env[PartnerKey := values[|values| - 1]]
  }

  /**
   * A run of ticks writes `.env` once per rotation, in order, with the newly
   * observed value; `last` and the environment end at the last rotated value,
   * and the heartbeat counter stays below LineWrap.
   */
  lemma {:induction false} RunEffect(s: MonitorState, jars: seq<Jar>)
    requires s.dotCount < LineWrap
    ensures var t := RunAll(s, jars); var rot := Rotations(s.last, Partners(jars));
      && t.store == UpsertAll(s.store, PartnerKey, rot)
      && t.last == LastAfter(s.last, Partners(jars))
      && t.env == MirrorAll(s.env, rot)
      && t.dotCount < LineWrap
    decreases |jars|
  {
    if jars != [] {
      var s' := Step(s, jars[0]);
      StepEffect(s, jars[0]);
      RunEffect(s', jars[1..]);
      var vs := Partners(jars);
      assert vs[1..] == Partners(jars[1..]);
      RotationsStep(s.last, vs);
      if Rotated(s.last, vs[0]) {
        var rest := Rotations(vs[0], vs[1..]);
        UpsertAllStep(s.store, PartnerKey, vs[0].value, rest);
        MirrorAllStep(s.env, vs[0].value, rest);
      }
    }
  }

  /** How the first observed value contributes to the rotations and to `last`. */
  lemma RotationsStep(last: Option<string>, values: seq<Option<string>>)
    requires values != []
    ensures Rotated(last, values[0]) ==>
      && Rotations(last, values) == [values[0].value] + Rotations(values[0], values[1..])
      && LastAfter(last, values) == LastAfter(values[0], values[1..])
    ensures !Rotated(last, values[0]) ==>
      && Rotations(last, values) == Rotations(last, values[1..])
      && LastAfter(last, values) == LastAfter(last, values[1..])
  {
    if Rotated(last, values[0]) {
      assert values[0] == Some(values[0].value);
    }
  }

  /** Upserting `v` and then `rest` is upserting `[v] + rest`. */
  lemma UpsertAllStep(store: Option<string>, key: string, v: string, rest: seq<string>)
    ensures UpsertAll(store, key, [v] + rest) == UpsertAll(Some(UpsertText(store, key, v)), key, rest)
  {
    assert ([v] + rest)[1..] == rest;
  }

  /** Mirroring `v` and then `rest` is mirroring `[v] + rest`. */
  lemma MirrorAllStep(env: map<string, string>, v: string, rest: seq<string>)
    ensures MirrorAll(env, [v] + rest) == MirrorAll(env[PartnerKey := v], rest)
  {
  }

  /** Every persisted value is non-empty, differs from the one before it, and the first differs from the starting value. */
  lemma {:induction false} RotationsChange(last: Option<string>, values: seq<Option<string>>)
    ensures var r := Rotations(last, values);
      && (forall i :: 0 <= i < |r| ==> r[i] != "")
      && (r != [] ==> Some(r[0]) != last)
      && (forall i :: 0 <= i < |r| - 1 ==> r[i] != r[i + 1])
    decreases |values|
  {
    if values != [] {
      RotationsChange(if Rotated(last, values[0]) then values[0] else last, values[1..]);
    }
  }

  /** An absent value never clears `last`: once something was seen, something is remembered. */
  lemma LastNeverCleared(last: Option<string>, values: seq<Option<string>>)
    requires last.Some?
    ensures LastAfter(last, values).Some?
  {
  }

  /** Snapshots that all carry the same partner value persist at most once, and never if it is the starting value. */
  lemma {:induction false} SteadyValue(last: Option<string>, values: seq<Option<string>>, v: Option<string>)
    requires forall i :: 0 <= i < |values| ==> values[i] == v
    ensures |Rotations(last, values)| <= 1
    ensures v == last || !NonEmpty(v) ==> Rotations(last, values) == []
    decreases |values|
  {
    if values != [] {
      var next := if Rotated(last, values[0]) then values[0] else last;
      SteadyValue(next, values[1..], v);
      if Rotated(last, values[0]) {
        assert next == v;
      }
    }
  }

  /** From A, snapshots A, A, A, B, B, C persist B then C; A, absent, A persists nothing. */
  lemma RotationExamples()
    ensures Rotations(Some("A"), [Some("A"), Some("A"), Some("A"), Some("B"), Some("B"), Some("C")]) == ["B", "C"]
    ensures Rotations(Some("A"), [Some("A"), None, Some("A")]) == []
  {
  }

  /** Upserting `new123` for the partner key into a three-line `.env` rewrites only the partner line. */
  lemma ScenarioUpsert()
    ensures UpsertText(Some("SECURE_1PSID=abc\nSECURE_1PSIDTS=old\nOTHER=keepme\n"), PartnerKey, "new123")
         == "SECURE_1PSID=abc\nSECURE_1PSIDTS=new123\nOTHER=keepme\n"
  {
    var l1, l3 := "SECURE_1PSID=abc\n", "OTHER=keepme\n";
    var e := Entry(PartnerKey, "new123");
    ScenarioRead();
    ScenarioRewrite();
    ThreeLines(l1, e, l3);
    ScenarioWritten();
  }

  lemma ScenarioWritten()
    ensures "SECURE_1PSID=abc\n" + Entry(PartnerKey, "new123") + "OTHER=keepme\n"
         == "SECURE_1PSID=abc\nSECURE_1PSIDTS=new123\nOTHER=keepme\n"
  {
  }

  lemma ScenarioRead()
    ensures ReadLines(Some("SECURE_1PSID=abc\nSECURE_1PSIDTS=old\nOTHER=keepme\n"))
         == ["SECURE_1PSID=abc\n", "SECURE_1PSIDTS=old\n", "OTHER=keepme\n"]
  {
    var l1, l2, l3 := "SECURE_1PSID=abc\n", "SECURE_1PSIDTS=old\n", "OTHER=keepme\n";
    ThreeLines(l1, l2, l3);
    assert l1 + l2 + l3 == "SECURE_1PSID=abc\nSECURE_1PSIDTS=old\nOTHER=keepme\n";
    ScenarioWellFormed();
    LinesOfConcat([l1, l2, l3]);
  }

  lemma ScenarioWellFormed()
    ensures WellFormed(["SECURE_1PSID=abc\n", "SECURE_1PSIDTS=old\n", "OTHER=keepme\n"])
  {
    assert IsLine("SECURE_1PSID=abc\n") && Terminated("SECURE_1PSID=abc\n");
    assert IsLine("SECURE_1PSIDTS=old\n") && Terminated("SECURE_1PSIDTS=old\n");
    assert IsLine("OTHER=keepme\n");
  }

  lemma ScenarioRewrite()
    ensures UpsertLines(["SECURE_1PSID=abc\n", "SECURE_1PSIDTS=old\n", "OTHER=keepme\n"], PartnerKey, "new123")
         == ["SECURE_1PSID=abc\n", Entry(PartnerKey, "new123"), "OTHER=keepme\n"]
  {
    var l1, l2, l3 := "SECURE_1PSID=abc\n", "SECURE_1PSIDTS=old\n", "OTHER=keepme\n";
    var before := [l1, l2, l3];
    assert !Assigns(l1, PartnerKey) by {
      assert l1[12] != (PartnerKey + "=")[12];
    }
    assert Assigns(l2, PartnerKey);
    assert !Assigns(l3, PartnerKey) by {
      assert l3[0] != (PartnerKey + "=")[0];
    }
    assert AnyAssigns(before, PartnerKey) by {
      assert Assigns(before[1], PartnerKey);
    }
    UpsertEffect(before, PartnerKey, "new123");
  }

  lemma ThreeLines(a: string, b: string, c: string)
    ensures Concat([a, b, c]) == a + b + c
  {
    var ls := [a, b, c];
    assert ls[1..] == [b, c];
    assert ls[1..][1..] == [c];
    assert ls[1..][1..][1..] == [];
    assert Concat([c]) == c + "" == c;
    assert Concat([b, c]) == b + c;
  }

  /**
   * `.env` holding `SECURE_1PSID=abc`, `SECURE_1PSIDTS=old` and `OTHER=keepme`:
   * a tick that sees the partner rotate to `new123` rewrites only the middle
   * line and remembers the new value.
   */
  lemma RotationScenario(env: map<string, string>, dotCount: nat)
    ensures var s := MonitorState(Some("old"), dotCount, env, Some("SECURE_1PSID=abc\nSECURE_1PSIDTS=old\nOTHER=keepme\n"));
      var t := Step(s, map["__Secure-1PSIDTS" := "new123"]);
      && t.store == Some("SECURE_1PSID=abc\nSECURE_1PSIDTS=new123\nOTHER=keepme\n")
      && t.last == Some("new123") && t.env == env[PartnerKey := "new123"] && t.dotCount == 0
  {
    PartnerCookieOrder(map["__Secure-1PSIDTS" := "new123"]);
    ScenarioUpsert();
  }

  // ---------------------------------------------------------------------------
  // Monitor: the task
  // ---------------------------------------------------------------------------

  /** `monitor_cookies` with its local state and the process state it changes. */
  class Monitor {
    var last: Option<string>
    var dotCount: nat
    var env: map<string, string>
    var store: Option<string>

    ghost predicate Valid()
      reads this
    {
      dotCount < LineWrap
    }

    function State(): MonitorState
      reads this
    {
      MonitorState(last, dotCount, env, store)
    }

    /** Monitoring starts from the partner value in the jar at that moment. */
    constructor (jar: Jar, env: map<string, string>, store: Option<string>)
      ensures Valid() && State() == Start(jar, env, store)
    {
      this.last := PartnerCookie(jar);
      this.dotCount := 0;
      this.env := env;
      this.store := store;
    }

    /** One pass of the polling loop, after its sleep, on the jar as it is now. */
    method Tick(jar: Jar)
      requires Valid()
      modifies this
      ensures Valid() && State() == Step(old(State()), jar)
    {
      var current := PartnerCookie(jar);
      if NonEmpty(current) && current != last {
        last := current;
        env := env[PartnerKey := current.value];
        var written := UpdateEnvFile(store, PartnerKey, current.value);
        store := Some(written);
        dotCount := 0;
      } else {
        dotCount := dotCount + 1;
        if dotCount >= LineWrap {
          dotCount := 0;
        }
      }
    }

    /** The polling loop, one tick per snapshot until the snapshots run out. */
    method Run(jars: seq<Jar>)
      requires Valid()
      modifies this
      ensures Valid() && State() == RunAll(old(State()), jars)
    {
      var i := 0;
      while i < |jars|
        invariant 0 <= i <= |jars|
        invariant Valid()
        invariant RunAll(State(), jars[i..]) == RunAll(old(State()), jars)
      {
        assert jars[i..][1..] == jars[i + 1..];
        Tick(jars[i]);
        i := i + 1;
      }
    }
  }
}
