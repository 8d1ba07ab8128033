/**
 * Name-precedence selection of a credential from a cookie jar: the value of
 * the first candidate name that the jar holds, or nothing. Both the harvester
 * and the session keeper select this way, each with its own candidate list.
 */
module Cookies {
  import opened Wrappers

  /** A cookie jar: cookie name to value. */
  type Jar = map<string, string>

  /** Python truthiness of an `Optional[str]`: present and not the empty string. */
  predicate NonEmpty(o: Option<string>) {
    o.Some? && o.value != ""
  }

  /**
   * The value bound to the first name in `candidates` (in list order) that
   * `jar` holds; `None` exactly when it holds none of them.
   */
  function Select(jar: Jar, candidates: seq<string>): (r: Option<string>)
    ensures r.None? <==> forall i :: 0 <= i < |candidates| ==> candidates[i] !in jar
    ensures r.Some? ==>
      exists i :: 0 <= i < |candidates| && candidates[i] in jar && r.value == jar[candidates[i]]
                  && forall j :: 0 <= j < i ==> candidates[j] !in jar
  {
    if candidates == [] then None
    else if candidates[0] in jar then Some(jar[candidates[0]])
    else Select(jar, candidates[1..])
  }

  /** The first present candidate decides the result: a present name at position `i` with none before it. */
  lemma SelectFirst(jar: Jar, candidates: seq<string>, i: nat)
    requires i < |candidates| && candidates[i] in jar
    requires forall j :: 0 <= j < i ==> candidates[j] !in jar
    ensures Select(jar, candidates) == Some(jar[candidates[i]])
  {
  }

  /** Splitting a candidate list: names in the first part take precedence over all names in the second. */
  lemma {:induction false} SelectSplit(jar: Jar, first: seq<string>, second: seq<string>)
    ensures Select(jar, first + second) == if Select(jar, first).Some? then Select(jar, first) else Select(jar, second)
  {
    if first == [] {
      assert first + second == second;
    } else {
      assert (first + second)[1..] == first[1..] + second;
      SelectSplit(jar, first[1..], second);
    }
  }
}
