/**
 * The `.env` upsert of the session keeper (app.py `_update_env_file`): read
 * the file line by line, replace every line that starts with `key=` by
 * `key=value\n`, append `key=value\n` if no line matched, and write all the
 * lines back as one text.
 */
module EnvFile {
  import opened Wrappers
  import opened TextLines

  /** The two keys the programs write: the identity and the partner credential. */
  const PsidKey := "SECURE_1PSID"
  const PartnerKey := "SECURE_1PSIDTS"

  /** The line written for `key`. */
  function Entry(key: string, value: string): string {
    key + "=" + value + "\n"
  }

  /** The line assigns `key`: it starts with `key=`. */
  predicate Assigns(line: string, key: string) {
    StartsWith(line, key + "=")
  }

  predicate AnyAssigns(lines: seq<string>, key: string) {
    exists i :: 0 <= i < |lines| && Assigns(lines[i], key)
  }

  /** A line after the replacement pass. */
  function Rewrite(line: string, key: string, value: string): string {
    if Assigns(line, key) then Entry(key, value) else line
  }

  function RewriteAll(lines: seq<string>, key: string, value: string): seq<string> {
    seq(|lines|, i requires 0 <= i < |lines| => Rewrite(lines[i], key, value))
  }

  /** The lines the upsert writes, given the lines it read. */
  function UpsertLines(lines: seq<string>, key: string, value: string): seq<string> {
    RewriteAll(lines, key, value) + if AnyAssigns(lines, key) then [] else [Entry(key, value)]
  }

  /** The lines read from the file; a missing file reads as no lines. */
  function ReadLines(file: Option<string>): seq<string> {
    if file.Some? then Lines(file.value) else []
  }

  /** The text the upsert writes, given the file's text before (`None`: no file). */
  function UpsertText(file: Option<string>, key: string, value: string): string {
    Concat(UpsertLines(ReadLines(file), key, value))
  }

  /** `_update_env_file` on a file whose text is `file`: the text it writes back. */
  method UpdateEnvFile(file: Option<string>, key: string, value: string) returns (written: string)
    ensures written == UpsertText(file, key, value)
  {
    var existing := ReadLines(file);
    var lines: seq<string> := [];
    var updated := false;
    var i := 0;
    while i < |existing|
      invariant 0 <= i <= |existing|
      invariant lines == RewriteAll(existing[..i], key, value)
      invariant updated <==> AnyAssigns(existing[..i], key)
    {
      var line := existing[i];
      assert existing[..i + 1] == existing[..i] + [line];
      if StartsWith(line, key + "=") {
        lines := lines + [Entry(key, value)];
        updated := true;
      } else {
        lines := lines + [line];
      }
      i := i + 1;
    }
    assert existing[..i] == existing;
    if !updated {
      lines := lines + [Entry(key, value)];
    }
    assert lines == UpsertLines(existing, key, value);
    written := Concat(lines);
  }

  /**
   * Every line that assigns `key` becomes `key=value\n`; every other line is
   * kept as it was, in its place; one entry is appended exactly when no line
   * assigned `key`.
   */
  lemma UpsertEffect(lines: seq<string>, key: string, value: string)
    ensures var out := UpsertLines(lines, key, value);
      && |out| == |lines| + (if AnyAssigns(lines, key) then 0 else 1)
      && (forall i :: 0 <= i < |lines| && Assigns(lines[i], key) ==> out[i] == Entry(key, value))
      && (forall i :: 0 <= i < |lines| && !Assigns(lines[i], key) ==> out[i] == lines[i])
      && (!AnyAssigns(lines, key) ==> out == lines + [Entry(key, value)])
  {
  }

  /** The file's text after an upsert that finds no line for `key`: the old text followed by the entry. */
  lemma UpsertAppendsText(file: Option<string>, key: string, value: string)
    requires !AnyAssigns(ReadLines(file), key)
    ensures UpsertText(file, key, value) == (if file.Some? then file.value else "") + Entry(key, value)
  {
    var lines := ReadLines(file);
    UpsertEffect(lines, key, value);
    ConcatAppend(lines, [Entry(key, value)]);
    assert Concat([Entry(key, value)]) == Entry(key, value) + Concat([]);
    if file.Some? {
      LinesRoundTrip(file.value);
    }
  }

  /** The text of a line before its first `=`. */
  function KeyOf(line: string): string {
    if line == [] || line[0] == '=' then [] else [line[0]] + KeyOf(line[1..])
  }

  /** A key without `=` that a line assigns is exactly the text before the line's first `=`. */
  lemma {:induction false} AssignedKey(line: string, key: string)
    requires '=' !in key
    requires Assigns(line, key)
    ensures KeyOf(line) == key
  {
    if key != [] {
      assert line[0] == key[0];
      assert line[1..][..|key| - 1 + 1] == key[1..] + "=";
      AssignedKey(line[1..], key[1..]);
      assert [key[0]] + key[1..] == key;
    }
  }

  /**
   * Keys that contain no `=` never interfere: no line assigns two different
   * keys, so updating `SECURE_1PSID` never touches a `SECURE_1PSIDTS=` line.
   */
  lemma AssignsOneKey(line: string, k1: string, k2: string)
    requires '=' !in k1 && '=' !in k2
    requires Assigns(line, k1) && Assigns(line, k2)
    ensures k1 == k2
  {
    AssignedKey(line, k1);
    AssignedKey(line, k2);
  }

  /** The entry is a line: it is terminated and holds no other newline. */
  lemma EntryIsLine(key: string, value: string)
    requires NoNewline(key) && NoNewline(value)
    ensures IsLine(Entry(key, value)) && Terminated(Entry(key, value))
    ensures Assigns(Entry(key, value), key)
  {
  }

  /**
   * Upserting well-formed lines yields well-formed lines holding the entry,
   * when the last line is terminated or some line already assigns the key
   * (so that nothing is appended after an unterminated line).
   */
  lemma UpsertWellFormed(lines: seq<string>, key: string, value: string)
    requires NoNewline(key) && NoNewline(value)
    requires WellFormed(lines)
    requires lines == [] || Terminated(lines[|lines| - 1]) || AnyAssigns(lines, key)
    ensures WellFormed(UpsertLines(lines, key, value))
    ensures AnyAssigns(UpsertLines(lines, key, value), key)
  {
    EntryIsLine(key, value);
    var out := UpsertLines(lines, key, value);
    UpsertEffect(lines, key, value);
    forall i | 0 <= i < |out| ensures IsLine(out[i]) && (i < |out| - 1 ==> Terminated(out[i])) {
      if i < |lines| && !Assigns(lines[i], key) {
        assert out[i] == lines[i];
        if i == |lines| - 1 && i < |out| - 1 {
          assert Terminated(lines[|lines| - 1]);
        }
      }
    }
    if AnyAssigns(lines, key) {
      var i :| 0 <= i < |lines| && Assigns(lines[i], key);
      assert out[i] == Entry(key, value);
    } else {
      assert out[|lines|] == Entry(key, value);
    }
  }

  /** Once every line that assigns `key` is the entry and one such line exists, upserting the same value changes nothing. */
  lemma UpsertFixed(lines: seq<string>, key: string, value: string)
    requires AnyAssigns(lines, key)
    requires forall i :: 0 <= i < |lines| && Assigns(lines[i], key) ==> lines[i] == Entry(key, value)
    ensures UpsertLines(lines, key, value) == lines
  {
  }

  /**
   * Upserting the same key and value twice writes the same text as upserting
   * once, provided the file was absent, empty, ended in a newline, or already
   * had a line assigning the key (and neither key nor value holds a newline).
   */
  lemma UpsertIdempotent(file: Option<string>, key: string, value: string)
    requires NoNewline(key) && NoNewline(value)
    requires file.None? || EndsInNewline(file.value) || AnyAssigns(ReadLines(file), key)
    ensures UpsertText(Some(UpsertText(file, key, value)), key, value) == UpsertText(file, key, value)
  {
    var lines := ReadLines(file);
    if file.Some? {
      LinesWellFormed(file.value);
      if EndsInNewline(file.value) {
        LinesTerminated(file.value);
      }
    }
    var out := UpsertLines(lines, key, value);
    UpsertWellFormed(lines, key, value);
    LinesOfConcat(out);
    assert ReadLines(Some(Concat(out))) == out;
    UpsertStable(lines, key, value);
  }

  /** On lines, upserting the same key and value a second time changes nothing. */
  lemma UpsertStable(lines: seq<string>, key: string, value: string)
    requires NoNewline(key) && NoNewline(value)
    ensures UpsertLines(UpsertLines(lines, key, value), key, value) == UpsertLines(lines, key, value)
  {
    var out := UpsertLines(lines, key, value);
    UpsertEffect(lines, key, value);
    EntryIsLine(key, value);
    if AnyAssigns(lines, key) {
      var i :| 0 <= i < |lines| && Assigns(lines[i], key);
      assert Assigns(out[i], key);
    } else {
      assert Assigns(out[|lines|], key);
    }
    assert forall i :: 0 <= i < |out| && Assigns(out[i], key) ==> out[i] == Entry(key, value);
    UpsertFixed(out, key, value);
  }

  /** The text `A=1`, which has no trailing newline, reads as the single line `A=1`. */
  lemma ReadUnterminated()
    ensures ReadLines(Some("A=1")) == ["A=1"]
  {
    LinesOfConcat(["A=1"]);
    assert Concat(["A=1"]) == "A=1" + Concat([]);
    assert "A=1" + "" == "A=1";
    assert Lines("A=1") == ["A=1"];
  }

  /**
   * Without a trailing newline the appended entry joins the last line: the
   * text written holds no line assigning the key, so a second upsert of the
   * same value appends the entry once more as a line of its own, and a third
   * changes nothing.
   */
  lemma UpsertNotIdempotent()
    ensures UpsertText(Some("A=1"), "K", "v") == "A=1K=v\n"
    ensures UpsertText(Some("A=1K=v\n"), "K", "v") == "A=1K=v\nK=v\n"
    ensures UpsertText(Some("A=1K=v\nK=v\n"), "K", "v") == "A=1K=v\nK=v\n"
  {
    ReadUnterminated();
    assert !Assigns("A=1", "K") by { assert "A=1"[..2] != "K="; }
    assert "A=1" + Entry("K", "v") == "A=1K=v\n";
    assert "A=1" + Entry("K", "v") + Entry("K", "v") == "A=1K=v\nK=v\n";
    UpsertAppendsAgain("A=1", "K", "v");
  }

  /** A line that does not assign `key` does not assign it once the entry is glued to its end either. */
  lemma GluedNotAssigns(l: string, key: string, value: string)
    requires '=' !in key
    requires l != [] && !Assigns(l, key)
    ensures !Assigns(l + Entry(key, value), key)
  {
    var g, p := l + Entry(key, value), key + "=";
    if |l| >= |p| {
      assert g[..|p|] == l[..|p|];
    } else {
      var j := |key|;
      assert g[j] == key[j - |l|];
      assert g[..|p|][j] != p[j];
    }
  }

  /** Joining a single line gives that line. */
  lemma ConcatOne(l: string)
    ensures Concat([l]) == l
  {
    assert [l][1..] == [];
  }

  /** The last line of a text that does not end in a newline holds no newline at all. */
  lemma {:induction false} UnterminatedLast(file: string)
    requires !EndsInNewline(file)
    ensures Lines(file) != [] && NoNewline(Lines(file)[|Lines(file)| - 1])
    decreases |file|
  {
    var k := LineEnd(file);
    var rest := file[k..];
    assert Lines(file) == [file[..k]] + Lines(rest);
    if k == |file| {
      assert rest == [];
      assert file[..k] == file[..k - 1] + [file[k - 1]];
    } else {
      assert rest[|rest| - 1] == file[|file| - 1];
      UnterminatedLast(rest);
    }
  }

  /** Gluing the entry to a last line without newline keeps the lines well formed. */
  lemma GluedWellFormed(ls: seq<string>, key: string, value: string)
    requires NoNewline(key) && NoNewline(value)
    requires WellFormed(ls) && ls != [] && NoNewline(ls[|ls| - 1])
    ensures WellFormed(ls[..|ls| - 1] + [ls[|ls| - 1] + Entry(key, value)])
  {
    var n := |ls|;
    var glued := ls[n - 1] + Entry(key, value);
    assert IsLine(glued) by {
      assert glued[..|glued| - 1] == ls[n - 1] + key + "=" + value;
    }
    var ls' := ls[..n - 1] + [glued];
    forall i | 0 <= i < |ls'| ensures IsLine(ls'[i]) && (i < |ls'| - 1 ==> Terminated(ls'[i])) {
      if i < n - 1 { assert ls'[i] == ls[i]; }
    }
  }

  /** Appending the entry to a text without a trailing newline glues it to the last line. */
  lemma GluedSplit(file: string, key: string, value: string)
    requires NoNewline(key) && NoNewline(value) && !EndsInNewline(file)
    ensures var ls := Lines(file);
      && ls != [] && ls[|ls| - 1] != [] && !EndsInNewline(ls[|ls| - 1])
      && Lines(file + Entry(key, value)) == ls[..|ls| - 1] + [ls[|ls| - 1] + Entry(key, value)]
  {
    var ls, e := Lines(file), Entry(key, value);
    LinesWellFormed(file);
    LinesRoundTrip(file);
    UnterminatedLast(file);
    GluedWellFormed(ls, key, value);
    assert ls[..|ls| - 1] + [ls[|ls| - 1]] == ls;
    GluedConcat(ls[..|ls| - 1], ls[|ls| - 1], e);
    LinesOfConcat(ls[..|ls| - 1] + [ls[|ls| - 1] + e]);
  }

  /** Joining lines with `e` glued to the last one is joining them, then `e`. */
  lemma GluedConcat(a: seq<string>, x: string, e: string)
    ensures Concat(a + [x + e]) == Concat(a + [x]) + e
  {
    ConcatAppend(a, [x]);
    ConcatAppend(a, [x + e]);
    ConcatOne(x);
    ConcatOne(x + e);
    assert (Concat(a) + x) + e == Concat(a) + (x + e);
  }

  /**
   * The lines of a text without a trailing newline, with the entry appended:
   * no line assigns the key if none did before.
   */
  lemma GluedLines(file: string, key: string, value: string)
    requires NoNewline(key) && NoNewline(value) && '=' !in key
    requires !EndsInNewline(file) && !AnyAssigns(Lines(file), key)
    ensures !AnyAssigns(Lines(file + Entry(key, value)), key)
  {
    GluedSplit(file, key, value);
    var ls := Lines(file);
    var n := |ls|;
    var ls' := Lines(file + Entry(key, value));
    GluedNotAssigns(ls[n - 1], key, value);
    forall i | 0 <= i < n ensures !Assigns(ls'[i], key) {
      if i < n - 1 { assert ls'[i] == ls[i]; }
    }
  }

  /**
   * Exactly when the file does not end in a newline and no line assigns the
   * key, the upsert is not idempotent: the first upsert glues the entry to
   * the last line, the next appends it once more as a line of its own, and
   * from then on the text is stable.
   */
  lemma UpsertAppendsAgain(file: string, key: string, value: string)
    requires NoNewline(key) && NoNewline(value) && '=' !in key
    requires !EndsInNewline(file) && !AnyAssigns(Lines(file), key)
    ensures UpsertText(Some(file), key, value) == file + Entry(key, value)
    ensures UpsertText(Some(file + Entry(key, value)), key, value) == file + Entry(key, value) + Entry(key, value)
    ensures UpsertText(Some(file + Entry(key, value) + Entry(key, value)), key, value)
         == file + Entry(key, value) + Entry(key, value)
  {
    UpsertAppendsText(Some(file), key, value);
    GluedLines(file, key, value);
    UpsertAppendsText(Some(file + Entry(key, value)), key, value);
    UpsertIdempotent(Some(file + Entry(key, value)), key, value);
  }
}
