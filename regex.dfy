/**
 * Python's `re` module as an opaque oracle. Nothing here interprets a
 * pattern: an `Engine` is any function from (pattern, text, IGNORECASE?) to
 * the first match, together with the compile-validity test. Facts the rest
 * of the model needs about the real engine are stated as predicates on an
 * `Engine` and appear as preconditions where they are used.
 */
module Regex {
  import opened Wrappers
  import opened PyText

  type Pattern = string

  /** A match object: `group(0)` and `groups()`, where `groups[k]` is `group(k + 1)`. */
  datatype Match = Match(whole: string, groups: seq<Option<string>>)

  /** `search(p, t, ic)` is `re.search(p, t, re.IGNORECASE if ic else 0)`; `compiles(p)` is "`re.compile(p)` raises no `re.error`". */
  datatype Engine = Engine(search: (Pattern, string, bool) -> Option<Match>, compiles: Pattern -> bool)

  predicate Matches(e: Engine, p: Pattern, t: string, ignoreCase: bool)
  {
    e.search(p, t, ignoreCase).Some?
  }

  /** What the real engine guarantees of every match: its group 0 and every group that took part are slices of the text. */
  ghost predicate Sound(e: Engine)
  {
    forall p, t, ic :: e.search(p, t, ic).Some? ==> MatchWithin(e.search(p, t, ic).value, t)
  }

  ghost predicate MatchWithin(m: Match, t: string)
  {
    && IsSubstring(m.whole, t)
    && forall k :: 0 <= k < |m.groups| && m.groups[k].Some? ==> IsSubstring(m.groups[k].value, t)
  }

  /** Group 1 exists and took part in the match. */
  predicate HasGroup1(m: Match)
  {
    |m.groups| > 0 && m.groups[0].Some?
  }

  /** `group(1)` of a match where it took part. */
  function Group1(m: Match): (g: string)
    requires HasGroup1(m)
    ensures Some(g) == m.groups[0]
  {
    m.groups[0].value
  }

  /** Each of `pats`, whenever it matches, captures group 1 (true of a pattern whose group 1 is not optional). */
  ghost predicate CapturesGroup1(e: Engine, pats: seq<Pattern>, ignoreCase: bool)
  {
    forall k, t :: 0 <= k < |pats| && e.search(pats[k], t, ignoreCase).Some? ==> HasGroup1(e.search(pats[k], t, ignoreCase).value)
  }

  /** `pats[k]` matches `t` and no earlier pattern does. */
  predicate IsFirstMatch(e: Engine, pats: seq<Pattern>, t: string, ignoreCase: bool, k: int)
  {
    && 0 <= k < |pats|
    && Matches(e, pats[k], t, ignoreCase)
    && forall j :: 0 <= j < k ==> !Matches(e, pats[j], t, ignoreCase)
  }

  /** The loop "for pattern in patterns: if re.search(...): return ..." as an index: the first pattern that matches. */
  function FirstMatching(e: Engine, pats: seq<Pattern>, t: string, ignoreCase: bool): (r: Option<nat>)
    ensures r.Some? ==> IsFirstMatch(e, pats, t, ignoreCase, r.value)
    ensures r.None? ==> forall j :: 0 <= j < |pats| ==> !Matches(e, pats[j], t, ignoreCase)
  {
    if pats == [] then None
    else if Matches(e, pats[0], t, ignoreCase) then Some(0)
    else
      match FirstMatching(e, pats[1..], t, ignoreCase)
      case None => None
      case Some(k) => Some(k + 1)
  }

  /** There is only one first match. */
  lemma FirstMatchUnique(e: Engine, pats: seq<Pattern>, t: string, ignoreCase: bool, k: int)
    requires IsFirstMatch(e, pats, t, ignoreCase, k)
    ensures FirstMatching(e, pats, t, ignoreCase) == Some(k)
  {
  }

  /**
   * Swapping the first two patterns, when the second does not match, only
   * moves a match of the first pattern from index 0 to index 1.
   */
  lemma SwapFirstTwo(e: Engine, ps: seq<Pattern>, cs: seq<Pattern>, t: string, ignoreCase: bool)
    requires |ps| >= 2 && cs == [ps[1], ps[0]] + ps[2..]
    requires !Matches(e, ps[1], t, ignoreCase)
    ensures FirstMatching(e, cs, t, ignoreCase) ==
              if FirstMatching(e, ps, t, ignoreCase) == Some(0) then Some(1) else FirstMatching(e, ps, t, ignoreCase)
  {
    assert cs[1..][1..] == ps[2..] == ps[1..][1..];
  }

  /**
   * Patterns after the first match are never consulted: any engine that
   * answers the same for the patterns up to and including it gives the same
   * first match.
   */
  lemma {:induction false} LaterPatternsIgnored(e1: Engine, e2: Engine, pats: seq<Pattern>, t: string, ignoreCase: bool, k: int)
    requires IsFirstMatch(e1, pats, t, ignoreCase, k)
    requires forall j :: 0 <= j <= k ==> e1.search(pats[j], t, ignoreCase) == e2.search(pats[j], t, ignoreCase)
    ensures FirstMatching(e2, pats, t, ignoreCase) == Some(k)
  {
    assert IsFirstMatch(e2, pats, t, ignoreCase, k);
    FirstMatchUnique(e2, pats, t, ignoreCase, k);
  }
}
