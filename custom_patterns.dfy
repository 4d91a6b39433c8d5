/**
 * The custom pattern registry: a name -> pattern dictionary, seeded with
 * five defaults, that callers extend and shrink at run time and use to pull
 * single fields (or every field at once) out of page text. Patterns are
 * checked with the engine's compile test before they are stored; searches
 * here are case-sensitive.
 */
module CustomPatterns {
  import opened Wrappers
  import opened PyText
  import opened Regex

  /** The patterns every fresh registry starts with. */
  const DefaultPatterns: map<string, Pattern> := map[
    "amount" := @"\$\s*[\d,]+\.?\d*",
    "date" := @"\d{1,2}[-/]\d{1,2}[-/]\d{2,4}",
    "account_number" := @"Account\s*#?\s*:\s*(\d+)",
    "box_number" := @"Box\s*(\d+)",
    "box_amount" := @"Box\s*\d+\s*:\s*(\$?\s*[\d,]+\.?\d*)"
  ]

  /**
   * The value one search yields for a field: group 1 when the pattern has
   * capture groups (absent if that group did not take part), otherwise the
   * whole match; absent when nothing matched.
   */
  function Capture(m: Option<Match>): (r: Option<string>)
    ensures m.None? ==> r.None?
    ensures m.Some? && |m.value.groups| > 0 ==> r == m.value.groups[0]
    ensures m.Some? && |m.value.groups| == 0 ==> r == Some(m.value.whole)
  {
    match m
    case None => None
    case Some(mt) => if |mt.groups| > 0 then mt.groups[0] else Some(mt.whole)
  }

  /** A captured field is always a piece of the searched text. */
  lemma CaptureWithin(e: Engine, p: Pattern, text: string)
    ensures Sound(e) && Capture(e.search(p, text, false)).Some? ==> IsSubstring(Capture(e.search(p, text, false)).value, text)
  {
    var m := e.search(p, text, false);
    if Sound(e) && m.Some? {
      assert MatchWithin(m.value, text);
      if |m.value.groups| > 0 && m.value.groups[0].Some? {
        assert IsSubstring(m.value.groups[0].value, text);
      }
    }
  }

  /** Python truthiness of an optional string: present and non-empty. */
  predicate Truthy(r: Option<string>)
  {
    r.Some? && r.value != ""
  }

  class CustomPatternManager {
    var patterns: map<string, Pattern>

    /**
     * The registry's validation invariant: every stored pattern passes the
     * engine's compile test. Adding and removing both keep it, so a caller
     * that starts from compiling patterns never finds an unvalidated one.
     */
    ghost predicate AllCompile(e: Engine)
      reads this
    {
      forall name :: name in patterns ==> e.compiles(patterns[name])
    }

    /** A fresh registry holds exactly the five default fields. */
    constructor ()
      ensures patterns == DefaultPatterns
      ensures patterns.Keys == {"amount", "date", "account_number", "box_number", "box_amount"}
    {
      patterns := DefaultPatterns;
    }

    /**
     * Registers `pattern` under `name` if and only if it compiles; on
     * success any earlier pattern of that name is replaced, on failure
     * nothing changes. Every other entry is left as it was.
     */
    method AddPattern(e: Engine, name: string, pattern: Pattern) returns (ok: bool)
      modifies this
      ensures ok == e.compiles(pattern)
      ensures ok ==> patterns == old(patterns)[name := pattern]
      ensures !ok ==> patterns == old(patterns)
      ensures old(AllCompile(e)) ==> AllCompile(e)
      ensures ok ==> forall t :: ExtractField(e, t, name) == Capture(e.search(pattern, t, false))
    {
      if e.compiles(pattern) {
        patterns := patterns[name := pattern];
        ok := true;
      } else {
        ok := false;
      }
    }

    /**
     * Deletes `name`, reporting whether it was registered; every other
     * entry is left as it was, and afterwards the field extracts as absent.
     */
    method RemovePattern(name: string) returns (ok: bool)
      modifies this
      ensures ok == (name in old(patterns))
      ensures patterns == old(patterns) - {name}
      ensures forall e :: old(AllCompile(e)) ==> AllCompile(e)
      ensures forall e, t :: ExtractField(e, t, name) == None
    {
      if name in patterns {
        patterns := patterns - {name};
        ok := true;
      } else {
        ok := false;
      }
    }

    /**
     * One field: absent for an unregistered name; otherwise what a
     * case-sensitive search with the registered pattern captures.
     */
    function ExtractField(e: Engine, text: string, name: string): (r: Option<string>)
      reads this
      ensures name !in patterns ==> r.None?
      ensures name in patterns && !Matches(e, patterns[name], text, false) ==> r.None?
      ensures name in patterns && Matches(e, patterns[name], text, false) ==>
                r == (var m := e.search(patterns[name], text, false).value;
                      if |m.groups| > 0 then m.groups[0] else Some(m.whole))
      ensures Sound(e) && r.Some? ==> IsSubstring(r.value, text)
    {
      if name !in patterns then None
      else
        CaptureWithin(e, patterns[name], text);
        Capture(e.search(patterns[name], text, false))
    }

    /**
     * Every field at once: exactly the registered names whose extraction is
     * present and non-empty, each mapped to that extraction. The registry
     * is only read.
     */
    method ExtractAllFields(e: Engine, text: string) returns (results: map<string, string>)
      ensures results.Keys <= patterns.Keys
      ensures forall name :: name in results ==> ExtractField(e, text, name) == Some(results[name]) && results[name] != ""
      ensures forall name :: name in patterns && Truthy(ExtractField(e, text, name)) ==> name in results
    {
      results := map[];
      var remaining := patterns.Keys;
      while remaining != {}
        invariant remaining <= patterns.Keys
        invariant results.Keys <= patterns.Keys - remaining
        invariant forall name :: name in results ==> ExtractField(e, text, name) == Some(results[name]) && results[name] != ""
        invariant forall name :: name in patterns && name !in remaining && Truthy(ExtractField(e, text, name)) ==> name in results
        decreases remaining
      {
        var name :| name in remaining;
        var found := ExtractField(e, text, name);
        if found.Some? && found.value != "" {
          results := results[name := found.value];
        }
        remaining := remaining - {name};
      }
    }
  }

  /** Removing the same name twice: the second call reports failure and the first call's deletion stands. */
  method RemoveTwice(registry: CustomPatternManager, name: string) returns (first: bool, second: bool)
    modifies registry
    ensures first == (name in old(registry.patterns))
    ensures !second
    ensures registry.patterns == old(registry.patterns) - {name}
  {
    first := registry.RemovePattern(name);
    second := registry.RemovePattern(name);
  }

  /** An invalid pattern is refused and the registry keeps all its fields. */
  method AddInvalid(e: Engine, registry: CustomPatternManager, name: string, pattern: Pattern) returns (ok: bool)
    requires !e.compiles(pattern)
    modifies registry
    ensures !ok
    ensures |registry.patterns| == old(|registry.patterns|)
  {
    ok := registry.AddPattern(e, name, pattern);
  }
}
