/**
 * How the two programs meet: the harvester writes `.env`, the session keeper
 * later rewrites its partner line, and each program has its own partner
 * precedence.
 */
module Lifecycle {
  import opened Wrappers
  import opened TextLines
  import H = Harvester
  import K = Keeper
  import E = EnvFile
  import Cookies

  /**
   * The two precedence orders disagree: with both a `__Secure-1PSIDCC` and a
   * `Secure_1PSIDTS` cookie, the harvester keeps the legacy TS value while
   * the keeper picks the CC value.
   */
  lemma PrecedenceDiverges()
    ensures var cookies := [H.Cookie("__Secure-1PSIDCC", "cc"), H.Cookie("Secure_1PSIDTS", "ts")];
      && H.ExtractCookie(cookies, H.PsidPartnerNames) == Some("ts")
      && K.PartnerCookie(H.CookieMap(cookies)) == Some("cc")
  {
    var cookies := [H.Cookie("__Secure-1PSIDCC", "cc"), H.Cookie("Secure_1PSIDTS", "ts")];
    var jar := H.CookieMap(cookies);
    H.LastOccurrenceWins(cookies, 0);
    H.LastOccurrenceWins(cookies, 1);
    assert "__Secure-1PSIDTS" !in jar;
    Cookies.SelectFirst(jar, H.PsidPartnerNames, 1);
    K.PartnerCookieOrder(jar);
  }

  /** A `.env` saved by the harvester (with "\n" as line separator) reads back as exactly its two lines. */
  lemma HarvestedLines(sid: string, partner: string)
    requires NoNewline(sid) && NoNewline(partner)
    requires partner != ""
    ensures E.ReadLines(Some(H.EnvContent(sid, Some(partner), "\n")))
         == [E.Entry(E.PsidKey, sid), E.Entry(E.PartnerKey, partner)]
  {
    var l1 := E.Entry(E.PsidKey, sid);
    var l2 := E.Entry(E.PartnerKey, partner);
    H.EnvContentShape(sid, Some(partner), "\n");
    assert H.EnvContent(sid, Some(partner), "\n") == l1 + l2;
    assert Concat([l1, l2]) == l1 + l2 by {
      assert [l1, l2][1..] == [l2];
      assert Concat([l2]) == l2 + "";
    }
    E.EntryIsLine(E.PsidKey, sid);
    E.EntryIsLine(E.PartnerKey, partner);
    LinesOfConcat([l1, l2]);
  }

  /**
   * A later rotation by the keeper rewrites the harvested partner line in
   * place and keeps the identity line: the `SECURE_1PSID=` line does not
   * assign `SECURE_1PSIDTS`.
   */
  lemma HarvestThenRotate(sid: string, partner: string, rotated: string)
    requires NoNewline(sid) && NoNewline(partner) && NoNewline(rotated)
    requires partner != ""
    ensures E.UpsertText(Some(H.EnvContent(sid, Some(partner), "\n")), E.PartnerKey, rotated)
         == E.Entry(E.PsidKey, sid) + E.Entry(E.PartnerKey, rotated)
  {
    var l1 := E.Entry(E.PsidKey, sid);
    var l2 := E.Entry(E.PartnerKey, partner);
    HarvestedLines(sid, partner);
    assert !E.Assigns(l1, E.PartnerKey) by {
      assert l1[12] == '=';
      assert (E.PartnerKey + "=")[12] == 'T';
    }
    assert E.Assigns(l2, E.PartnerKey) by {
      assert l2[..15] == E.PartnerKey + "=";
    }
    var e := E.Entry(E.PartnerKey, rotated);
    E.UpsertEffect([l1, l2], E.PartnerKey, rotated);
    assert E.AnyAssigns([l1, l2], E.PartnerKey) by {
      assert E.Assigns([l1, l2][1], E.PartnerKey);
    }
    assert E.UpsertLines([l1, l2], E.PartnerKey, rotated) == [l1, e];
    assert Concat([l1, e]) == l1 + e by {
      assert [l1, e][1..] == [e];
      assert Concat([e]) == e + "";
    }
  }
}
