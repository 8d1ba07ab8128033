/**
 * Text as Python's line iteration sees it. Iterating an open text file yields
 * its lines in order, each keeping its terminating "\n" except possibly the
 * last one; `"".join(lines)` concatenates them back.
 */
module TextLines {

  predicate NoNewline(s: string) {
    forall i :: 0 <= i < |s| ==> s[i] != '\n'
  }

  /** Python's `s.startswith(prefix)`. */
  predicate StartsWith(s: string, prefix: string) {
    |prefix| <= |s| && s[..|prefix|] == prefix
  }

  /** The text is empty or ends in a newline. */
  predicate EndsInNewline(s: string) {
    s == [] || s[|s| - 1] == '\n'
  }

  /** A line as iteration yields it: non-empty, no newline before its last character. */
  predicate IsLine(l: string) {
    l != [] && NoNewline(l[..|l| - 1])
  }

  predicate Terminated(l: string) {
    l != [] && l[|l| - 1] == '\n'
  }

  /** What iterating some text can yield: lines, all but the last terminated. */
  predicate WellFormed(ls: seq<string>) {
    && (forall i :: 0 <= i < |ls| ==> IsLine(ls[i]))
    && (forall i :: 0 <= i < |ls| - 1 ==> Terminated(ls[i]))
  }

  /** The length of the first line of `s`: up to and including the first newline, or all of `s`. */
  function LineEnd(s: string): (k: nat)
    requires s != []
    ensures 0 < k <= |s|
    ensures NoNewline(s[..k - 1])
    ensures k < |s| ==> s[k - 1] == '\n'
  {
    if s[0] == '\n' || |s| == 1 then 1
    else
      var k := 1 + LineEnd(s[1..]);
      assert s[..k - 1] == [s[0]] + s[1..][..k - 2];
      k
  }

  /** The lines Python yields when iterating a file whose text is `s`. */
  function Lines(s: string): seq<string>
    decreases |s|
  {
    if s == [] then [] else [s[..LineEnd(s)]] + Lines(s[LineEnd(s)..])
  }

  /** `"".join(ls)`. */
  function Concat(ls: seq<string>): string {
    if ls == [] then "" else ls[0] + Concat(ls[1..])
  }

  lemma {:induction false} ConcatAppend(a: seq<string>, b: seq<string>)
    ensures Concat(a + b) == Concat(a) + Concat(b)
  {
    if a == [] {
      assert a + b == b;
    } else {
      assert (a + b)[1..] == a[1..] + b;
      ConcatAppend(a[1..], b);
    }
  }

  /** Splitting text into lines and joining them gives the text back. */
  lemma {:induction false} LinesRoundTrip(s: string)
    ensures Concat(Lines(s)) == s
    decreases |s|
  {
    if s != [] {
      var k := LineEnd(s);
      LinesRoundTrip(s[k..]);
      var ls := Lines(s);
      assert ls == [s[..k]] + Lines(s[k..]);
      assert ls[1..] == Lines(s[k..]);
      assert s[..k] + s[k..] == s;
    }
  }

  /** Splitting any text yields well-formed lines. */
  lemma {:induction false} LinesWellFormed(s: string)
    ensures WellFormed(Lines(s))
    decreases |s|
  {
    if s != [] {
      var k := LineEnd(s);
      LinesWellFormed(s[k..]);
      var rest := Lines(s[k..]);
      var ls := Lines(s);
      assert ls == [s[..k]] + rest;
      assert IsLine(ls[0]);
      forall i | 0 <= i < |ls| ensures IsLine(ls[i]) {
        if i > 0 { assert ls[i] == rest[i - 1]; }
      }
      forall i | 0 <= i < |ls| - 1 ensures Terminated(ls[i]) {
        if i > 0 {
          assert ls[i] == rest[i - 1];
        } else {
          assert rest != [] ==> k < |s|;
        }
      }
    }
  }

  /** A text that ends in a newline splits into lines that are all terminated. */
  lemma {:induction false} LinesTerminated(s: string)
    requires EndsInNewline(s)
    ensures forall i :: 0 <= i < |Lines(s)| ==> Terminated(Lines(s)[i])
    decreases |s|
  {
    if s != [] {
      var k := LineEnd(s);
      LinesTerminated(s[k..]);
      assert Lines(s) == [s[..k]] + Lines(s[k..]);
    }
  }

  /** The first line of `l + rest` is `l`, when `l` is a line that is terminated or is the whole text. */
  lemma {:induction false} LineEndOfLine(l: string, rest: string)
    requires IsLine(l)
    requires Terminated(l) || rest == []
    ensures LineEnd(l + rest) == |l|
    decreases |l|
  {
    var s := l + rest;
    if |l| > 1 {
      assert s[0] == l[..|l| - 1][0];
      assert s[1..] == l[1..] + rest;
      assert l[1..][..|l[1..]| - 1] == l[..|l| - 1][1..];
      LineEndOfLine(l[1..], rest);
    }
  }

  /** Joining well-formed lines and splitting the text again gives the same lines. */
  lemma {:induction false} LinesOfConcat(ls: seq<string>)
    requires WellFormed(ls)
    ensures Lines(Concat(ls)) == ls
  {
    if ls != [] {
      var rest := Concat(ls[1..]);
      assert Concat(ls) == ls[0] + rest;
      if |ls| == 1 {
        assert ls[1..] == [];
      }
      LineEndOfLine(ls[0], rest);
      assert (ls[0] + rest)[..|ls[0]|] == ls[0];
      assert (ls[0] + rest)[|ls[0]|..] == rest;
      assert WellFormed(ls[1..]) by {
        forall i | 0 <= i < |ls[1..]| - 1 ensures Terminated(ls[1..][i]) {
          assert ls[1..][i] == ls[i + 1];
        }
      }
      LinesOfConcat(ls[1..]);
    }
  }
}
