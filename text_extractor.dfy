/**
 * The built-in field extractor of the tax-slip tool: stateless rules, each
 * resolved first-match-wins over a fixed, ordered list of patterns, plus the
 * whitespace clean-up applied to page text before it is handed to a chat
 * assistant. Every search goes through the `Regex.Engine` oracle; only the
 * clean-up and the "T4" classification rule are given concrete meaning.
 */
module TextExtractor {
  import opened Wrappers
  import opened PyText
  import opened Regex

  // ---------------------------------------------------------------- SIN

  /** Nine digits in groups of three, optionally separated by whitespace, between word boundaries. */
  const SinPattern: Pattern := @"\b\d{3}\s*\d{3}\s*\d{3}\b"

  /**
   * The Canadian social insurance number: the first match of `SinPattern`,
   * searched case-sensitively, returned verbatim (group 0, internal spacing
   * untouched); absent when the pattern does not match.
   */
  function ExtractSin(e: Engine, text: string): (r: Option<string>)
    ensures r.Some? <==> Matches(e, SinPattern, text, false)
    ensures r.Some? ==> r.value == e.search(SinPattern, text, false).value.whole
    ensures Sound(e) && r.Some? ==> IsSubstring(r.value, text)
  {
    match e.search(SinPattern, text, false)
    case None => None
    case Some(m) => Some(m.whole)
  }

  // ------------------------------------------------------ slip classifier

  /** One classification rule: a slip label and the pattern that recognises it. */
  datatype SlipRule = SlipRule(name: string, pattern: Pattern)

  const T4Pattern: Pattern := @"T4\s*(Statement of Remuneration Paid)?"
  const T4APattern: Pattern := @"T4A\s*(Statement of Pension)"

  /** The rule table in its declared order; the order decides the label. */
  const SlipRules: seq<SlipRule> := [
    SlipRule("T4", T4Pattern),
    SlipRule("T4A", T4APattern),
    SlipRule("T5", @"T5\s*(Statement of Investment Income)"),
    SlipRule("T3", @"T3\s*(Statement of Trust Income)"),
    SlipRule("T5008", @"T5008\s*(Statement of Securities Transactions)"),
    SlipRule("T1135", @"T1135\s*(Foreign Income Verification Statement)"),
    SlipRule("Capital Gains", @"(Capital Gains|Realized Gain)\s*(Summary|Statement)"),
    SlipRule("Summary", @"(Tax Return Summary|T1 Summary|Summary of.*Returns)")
  ]

  /** The patterns of a rule table, in the same order. */
  function PatternsOf(rules: seq<SlipRule>): (ps: seq<Pattern>)
    ensures |ps| == |rules|
    ensures forall i :: 0 <= i < |rules| ==> ps[i] == rules[i].pattern
  {
    if rules == [] then [] else [rules[0].pattern] + PatternsOf(rules[1..])
  }

  const SlipPatterns: seq<Pattern> := PatternsOf(SlipRules)

  /** The label given to a page no rule recognises. */
  const Unrecognized: string := "Unrecognized"

  /** The classification loop over any rule table: the name of the first rule whose pattern matches case-insensitively, else `Unrecognized`. */
  function ClassifyBy(e: Engine, rules: seq<SlipRule>, text: string): (r: string)
    ensures r != Unrecognized ==> exists k :: IsFirstMatch(e, PatternsOf(rules), text, true, k) && r == rules[k].name
    ensures (forall k :: 0 <= k < |rules| ==> rules[k].name != Unrecognized) ==>
              (r == Unrecognized <==> forall k :: 0 <= k < |rules| ==> !Matches(e, rules[k].pattern, text, true))
  {
    match FirstMatching(e, PatternsOf(rules), text, true)
    case None => Unrecognized
    case Some(k) => rules[k].name
  }

  /**
   * The slip type of a page: the label of the first rule, in table order,
   * whose pattern matches case-insensitively; `Unrecognized` exactly when no
   * rule matches. The result is always one of the nine labels.
   */
  function ExtractSlipName(e: Engine, text: string): (r: string)
    ensures r == Unrecognized <==> forall k :: 0 <= k < |SlipRules| ==> !Matches(e, SlipRules[k].pattern, text, true)
    ensures r != Unrecognized ==> exists k :: IsFirstMatch(e, SlipPatterns, text, true, k) && r == SlipRules[k].name
    ensures r in SlipLabels || r == Unrecognized
  {
    SlipNamesKnown(SlipRules);
    ClassifyBy(e, SlipRules, text)
  }

  /** The eight slip labels. */
  const SlipLabels: set<string> := {"T4", "T4A", "T5", "T3", "T5008", "T1135", "Capital Gains", "Summary"}

  /** Every rule of a table whose rules are all taken from the built-in rules carries one of the eight labels, none of them `Unrecognized`. */
  lemma SlipNamesKnown(rules: seq<SlipRule>)
    requires forall k :: 0 <= k < |rules| ==> rules[k] in SlipRules
    ensures forall k :: 0 <= k < |rules| ==> rules[k].name in SlipLabels && rules[k].name != Unrecognized
  {
  }

  /** First match wins: whichever rule matches first in table order gives the label, whatever later rules would say. */
  lemma SlipNameOfFirstMatch(e: Engine, text: string, k: int)
    requires IsFirstMatch(e, SlipPatterns, text, true, k)
    ensures ExtractSlipName(e, text) == SlipRules[k].name
  {
    FirstMatchUnique(e, SlipPatterns, text, true, k);
  }

  /** Case-insensitive "T4" at index `i` (neither letter nor digit has another case variant under `re.IGNORECASE`). */
  predicate T4At(t: string, i: int)
  {
    0 <= i && i + 1 < |t| && (t[i] == 'T' || t[i] == 't') && t[i + 1] == '4'
  }

  predicate T4AAt(t: string, i: int)
  {
    T4At(t, i) && i + 2 < |t| && (t[i + 2] == 'A' || t[i + 2] == 'a')
  }

  ghost predicate HasT4(t: string)
  {
    exists i :: T4At(t, i)
  }

  ghost predicate HasT4A(t: string)
  {
    exists i :: T4AAt(t, i)
  }

  /**
   * What the real engine does with the first two rules: since the T4 rule's
   * group is optional, it matches exactly when "T4" occurs in any case; a
   * T4A match needs "T4A" to occur in any case.
   */
  ghost predicate AgreesOnT4(e: Engine)
  {
    && (forall t :: Matches(e, T4Pattern, t, true) <==> HasT4(t))
    && (forall t :: Matches(e, T4APattern, t, true) ==> HasT4A(t))
  }

  /** Only rule 0 is named "T4" and only rule 1 "T4A". */
  lemma T4NamesAt(k: int)
    requires 0 <= k < |SlipRules|
    ensures SlipRules[k].name == "T4" <==> k == 0
    ensures SlipRules[k].name == "T4A" <==> k == 1
  {
  }

  /** A page is labelled "T4" exactly when "T4" occurs in it, in any case. */
  lemma T4LabelIff(e: Engine, text: string)
    requires AgreesOnT4(e)
    ensures ExtractSlipName(e, text) == "T4" <==> HasT4(text)
  {
    if HasT4(text) {
      SlipNameOfFirstMatch(e, text, 0);
    } else {
      match FirstMatching(e, SlipPatterns, text, true)
      case None =>
      case Some(k) =>
        T4NamesAt(k);
    }
  }

  /** Every text the T4A rule matches is labelled "T4": the T4 rule shadows it. */
  lemma T4AShadowed(e: Engine, text: string)
    requires AgreesOnT4(e)
    requires Matches(e, T4APattern, text, true)
    ensures ExtractSlipName(e, text) == "T4"
  {
    var i :| T4AAt(text, i);
    assert T4At(text, i);
    T4LabelIff(e, text);
  }

  /** Consequently the label "T4A" is never produced. */
  lemma T4ANeverReturned(e: Engine, text: string)
    requires AgreesOnT4(e)
    ensures ExtractSlipName(e, text) != "T4A"
  {
    if Matches(e, T4APattern, text, true) {
      T4AShadowed(e, text);
    } else {
      match FirstMatching(e, SlipPatterns, text, true)
      case None =>
      case Some(k) =>
        T4NamesAt(k);
    }
  }

  /** A page carrying the T4 slip title is labelled "T4". */
  lemma T4TitleClassified(e: Engine, text: string)
    requires AgreesOnT4(e)
    requires IsSubstring("T4 Statement of Remuneration Paid", text)
    ensures ExtractSlipName(e, text) == "T4"
  {
    var i :| OccursAt("T4 Statement of Remuneration Paid", text, i);
    assert text[i] == text[i..i + 33][0] && text[i + 1] == text[i..i + 33][1];
    assert T4At(text, i);
    T4LabelIff(e, text);
  }

  /** The rule table with the T4A rule ahead of the T4 rule that otherwise shadows it. */
  const CorrectedSlipRules: seq<SlipRule> := [SlipRules[1], SlipRules[0]] + SlipRules[2..]

  /** Classification over `CorrectedSlipRules`. */
  function ExtractSlipNameCorrected(e: Engine, text: string): (r: string)
    ensures r == Unrecognized <==> forall k :: 0 <= k < |CorrectedSlipRules| ==> !Matches(e, CorrectedSlipRules[k].pattern, text, true)
    ensures r in SlipLabels || r == Unrecognized
  {
    SlipNamesKnown(CorrectedSlipRules);
    ClassifyBy(e, CorrectedSlipRules, text)
  }

  /** With the corrected order, a page the T4A rule matches is labelled "T4A". */
  lemma CorrectedT4AReachable(e: Engine, text: string)
    requires Matches(e, T4APattern, text, true)
    ensures ExtractSlipNameCorrected(e, text) == "T4A"
  {
    FirstMatchUnique(e, PatternsOf(CorrectedSlipRules), text, true, 0);
  }

  /**
   * Swapping the first two rules of any table changes nothing for a text the
   * second rule does not match: the first rule keeps its match (now found one
   * step later) and every later rule stays where it was.
   */
  lemma ClassifySwapFirstTwo(e: Engine, rules: seq<SlipRule>, swapped: seq<SlipRule>, text: string)
    requires |rules| >= 2 && swapped == [rules[1], rules[0]] + rules[2..]
    requires !Matches(e, rules[1].pattern, text, true)
    ensures ClassifyBy(e, swapped, text) == ClassifyBy(e, rules, text)
  {
    var ps := PatternsOf(rules);
    assert PatternsOf(swapped) == [ps[1], ps[0]] + ps[2..];
    SwapFirstTwo(e, ps, PatternsOf(swapped), text, true);
  }

  /** The correction changes nothing for pages the T4A rule does not match. */
  lemma CorrectedAgreesElsewhere(e: Engine, text: string)
    requires !Matches(e, T4APattern, text, true)
    ensures ExtractSlipNameCorrected(e, text) == ExtractSlipName(e, text)
  {
    ClassifySwapFirstTwo(e, SlipRules, CorrectedSlipRules, text);
  }

  // ------------------------------------------------- issuer and taxpayer

  const IssuerPatterns: seq<Pattern> := [
    @"(?:Issuer|Payer|Employer|Institution)[:]\s*([^\n]*)",
    @"(?:Company|Business|Fund) Name[:]\s*([^\n]*)",
    @"(?:From|By)[:]\s*([^\n]*\b(?:Inc|Ltd|Corp|Limited|Bank)\b[^\n]*)"
  ]

  const TaxpayerPatterns: seq<Pattern> := [
    @"(?:Recipient|Employee|Individual|Taxpayer)[\s]*Name[:]\s*([^\n]*)",
    @"(?:Last Name|Surname)[\s]*,[\s]*(?:First Name|Given Name)[:]\s*([^\n]*)",
    @"(?:Name of|To)[:]\s*([^\n]*)"
  ]

  /**
   * The shared shape of the issuer and taxpayer rules: try the candidates in
   * order, case-insensitively, and return the stripped group 1 of the first
   * one that matches; absent when none matches.
   */
  function FirstStrippedGroup(e: Engine, pats: seq<Pattern>, text: string): (r: Option<string>)
    requires CapturesGroup1(e, pats, true)
    ensures r.None? <==> forall j :: 0 <= j < |pats| ==> !Matches(e, pats[j], text, true)
    ensures r.Some? ==> exists k :: IsFirstMatch(e, pats, text, true, k)
                                    && r.value == Strip(Group1(e.search(pats[k], text, true).value))
    ensures r.Some? ==> Trimmed(r.value)
    ensures Sound(e) && r.Some? ==> IsSubstring(r.value, text)
  {
    match FirstMatching(e, pats, text, true)
    case None => None
    case Some(k) =>
      var g := Group1(e.search(pats[k], text, true).value);
      var s := Strip(g);
      StrippedWithin(e, g, s, text, pats[k]);
      Some(s)
  }

  lemma StrippedWithin(e: Engine, g: string, s: string, text: string, p: Pattern)
    requires s == Strip(g)
    requires e.search(p, text, true).Some? && HasGroup1(e.search(p, text, true).value)
    requires g == Group1(e.search(p, text, true).value)
    ensures Sound(e) ==> IsSubstring(s, text)
  {
    var i :| CutFrom(g, i, s);
    assert OccursAt(s, g, i);
    if Sound(e) {
      assert MatchWithin(e.search(p, text, true).value, text);
      SubstringTransitive(s, g, text);
    }
  }

  /** A candidate that matches first decides the result on its own. */
  lemma FirstStrippedGroupAt(e: Engine, pats: seq<Pattern>, text: string, k: int)
    requires CapturesGroup1(e, pats, true)
    requires IsFirstMatch(e, pats, text, true, k)
    ensures FirstStrippedGroup(e, pats, text) == Some(Strip(Group1(e.search(pats[k], text, true).value)))
  {
    FirstMatchUnique(e, pats, text, true, k);
  }

  /**
   * The issuer's name: the stripped group 1 of the first of the three
   * candidates that matches case-insensitively; absent when none matches.
   */
  function ExtractIssuerName(e: Engine, text: string): (r: Option<string>)
    requires CapturesGroup1(e, IssuerPatterns, true)
    ensures r.None? <==> forall j :: 0 <= j < |IssuerPatterns| ==> !Matches(e, IssuerPatterns[j], text, true)
    ensures r.Some? ==> exists k :: IsFirstMatch(e, IssuerPatterns, text, true, k)
                                    && r.value == Strip(Group1(e.search(IssuerPatterns[k], text, true).value))
    ensures r.Some? ==> Trimmed(r.value)
    ensures Sound(e) && r.Some? ==> IsSubstring(r.value, text)
  {
    FirstStrippedGroup(e, IssuerPatterns, text)
  }

  /**
   * The taxpayer's name: the stripped group 1 of the first of the three
   * candidates that matches case-insensitively; absent when none matches.
   */
  function ExtractTaxpayerName(e: Engine, text: string): (r: Option<string>)
    requires CapturesGroup1(e, TaxpayerPatterns, true)
    ensures r.None? <==> forall j :: 0 <= j < |TaxpayerPatterns| ==> !Matches(e, TaxpayerPatterns[j], text, true)
    ensures r.Some? ==> exists k :: IsFirstMatch(e, TaxpayerPatterns, text, true, k)
                                    && r.value == Strip(Group1(e.search(TaxpayerPatterns[k], text, true).value))
    ensures r.Some? ==> Trimmed(r.value)
    ensures Sound(e) && r.Some? ==> IsSubstring(r.value, text)
  {
    FirstStrippedGroup(e, TaxpayerPatterns, text)
  }

  /** When the first issuer candidate matches, the later ones are not consulted. */
  lemma IssuerFirstCandidateWins(e: Engine, text: string)
    requires CapturesGroup1(e, IssuerPatterns, true)
    requires Matches(e, IssuerPatterns[0], text, true)
    ensures ExtractIssuerName(e, text) == Some(Strip(Group1(e.search(IssuerPatterns[0], text, true).value)))
  {
    FirstStrippedGroupAt(e, IssuerPatterns, text, 0);
  }

  // ------------------------------------------------------- chat clean-up

  /** Every whitespace character is a plain space. */
  predicate SpacesAreBlank(s: string)
  {
    forall i :: 0 <= i < |s| && IsSpace(s[i]) ==> s[i] == ' '
  }

  /** No two whitespace characters stand next to each other. */
  predicate NoAdjacentSpaces(s: string)
  {
    forall i :: 1 <= i < |s| && IsSpace(s[i - 1]) ==> !IsSpace(s[i])
  }

  /**
   * `re.sub(r'\s+', ' ', s)`: each maximal run of whitespace becomes one
   * space; `inRun` says whether the character before `s` was whitespace.
   * The words of the text (`s.split()`) are unchanged; only the runs
   * between them shrink to one space.
   */
  function Collapse(s: string, inRun: bool): (r: string)
    ensures SpacesAreBlank(r) && NoAdjacentSpaces(r)
    ensures inRun ==> r == [] || !IsSpace(r[0])
    ensures !inRun ==> (r == [] <==> s == []) && (s != [] ==> (IsSpace(r[0]) <==> IsSpace(s[0])))
    ensures NonSpace(r) == NonSpace(s)
  {
    if s == [] then []
    else if IsSpace(s[0]) then
      if inRun then Collapse(s[1..], true) else " " + Collapse(s[1..], true)
    else [s[0]] + Collapse(s[1..], false)
  }

  /** The substitution keeps the words of the text: only the whitespace between them changes. */
  lemma {:induction false} CollapseKeepsWords(s: string, inRun: bool)
    ensures Words(Collapse(s, inRun)) == Words(s)
  {
    if s != [] {
      var rest := Collapse(s[1..], IsSpace(s[0]));
      CollapseKeepsWords(s[1..], IsSpace(s[0]));
      if IsSpace(s[0]) {
        WordsSkipSpace(s);
        if !inRun {
          CollapseSpaceStep(rest);
        }
      } else {
        SameWordsAfterChar(s[0], s[1..], rest);
        assert s == [s[0]] + s[1..];
      }
    }
  }

  /** A whitespace-only text inside a run collapses to nothing: the run's one space was already written. */
  lemma {:induction false} CollapseAllSpace(s: string)
    requires AllSpace(s)
    ensures Collapse(s, true) == []
  {
    if s != [] {
      assert AllSpace(s[1..]) by {
        forall i | 0 <= i < |s| - 1 ensures IsSpace(s[1..][i]) {
          assert s[1..][i] == s[i + 1];
        }
      }
      CollapseAllSpace(s[1..]);
    }
  }

  /**
   * The substitution's last character: unless the whole text is whitespace
   * continuing a run already written, the result is non-empty and ends in
   * whitespace exactly when the input does (a trailing run becomes one space).
   */
  lemma {:induction false} CollapseEnd(s: string, inRun: bool)
    requires s != [] && !(inRun && AllSpace(s))
    ensures var r := Collapse(s, inRun); r != [] && (IsSpace(r[|r| - 1]) <==> IsSpace(s[|s| - 1]))
  {
    if s[1..] != [] && !(IsSpace(s[0]) && AllSpace(s[1..])) {
      CollapseEnd(s[1..], IsSpace(s[0]));
      CollapseEndStep(s, inRun);
    } else {
      CollapseEndBase(s, inRun);
    }
  }

  /** The base cases of `CollapseEnd`: one character, or a whitespace-only text outside a run. */
  lemma CollapseEndBase(s: string, inRun: bool)
    requires s != [] && !(inRun && AllSpace(s))
    requires s[1..] == [] || (IsSpace(s[0]) && AllSpace(s[1..]))
    ensures var r := Collapse(s, inRun); r != [] && (IsSpace(r[|r| - 1]) <==> IsSpace(s[|s| - 1]))
  {
    if IsSpace(s[0]) {
      SpaceRunTail(s);
      CollapseSpaceRun(s);
    } else {
      CollapseLastWord(s, inRun);
    }
  }

  /** The inductive step of `CollapseEnd`: the result ends like the tail's result. */
  lemma CollapseEndStep(s: string, inRun: bool)
    requires |s| > 1
    requires var q := Collapse(s[1..], IsSpace(s[0])); q != [] && (IsSpace(q[|q| - 1]) <==> IsSpace(s[1..][|s[1..]| - 1]))
    ensures var r := Collapse(s, inRun); r != [] && (IsSpace(r[|r| - 1]) <==> IsSpace(s[|s| - 1]))
  {
    CollapseLast(s, inRun);
  }

  /** A whitespace-only text outside a run becomes one space, and both end in whitespace. */
  lemma CollapseSpaceRun(s: string)
    requires s != [] && AllSpace(s)
    ensures Collapse(s, false) == " " && IsSpace(s[|s| - 1])
  {
    assert IsSpace(s[0]);
    assert AllSpace(s[1..]) by {
      forall i | 0 <= i < |s| - 1 ensures IsSpace(s[1..][i]) {
        assert s[1..][i] == s[i + 1];
      }
    }
    CollapseAllSpace(s[1..]);
  }

  /** A whitespace character followed by a whitespace-only tail makes a whitespace-only text. */
  lemma SpaceRunTail(s: string)
    requires s != [] && IsSpace(s[0]) && (|s| == 1 || AllSpace(s[1..]))
    ensures AllSpace(s)
  {
    forall i | 1 <= i < |s| ensures IsSpace(s[i]) {
      assert s[i] == s[1..][i - 1];
    }
  }

  /** A single non-whitespace character is kept as it is. */
  lemma CollapseLastWord(s: string, inRun: bool)
    requires |s| == 1 && !IsSpace(s[0])
    ensures var r := Collapse(s, inRun); r != [] && (IsSpace(r[|r| - 1]) <==> IsSpace(s[|s| - 1]))
  {
    assert Collapse(s, inRun) == [s[0]] + Collapse([], false);
  }

  /** The result ends with the last character of the tail's result, and the text with the last character of its tail. */
  lemma CollapseLast(s: string, inRun: bool)
    requires |s| > 1 && Collapse(s[1..], IsSpace(s[0])) != []
    ensures var r, q := Collapse(s, inRun), Collapse(s[1..], IsSpace(s[0]));
      r != [] && r[|r| - 1] == q[|q| - 1] && s[|s| - 1] == s[1..][|s[1..]| - 1]
  {
    var q := Collapse(s[1..], IsSpace(s[0]));
    if !IsSpace(s[0]) {
      LastOfConcat([s[0]], q);
    } else if !inRun {
      LastOfConcat(" ", q);
    }
  }

  lemma LastOfConcat(p: string, q: string)
    requires q != []
    ensures (p + q)[|p + q| - 1] == q[|q| - 1]
  {
  }

  lemma CollapseSpaceStep(rest: string)
    ensures Words(" " + rest) == Words(rest)
  {
    assert (" " + rest)[1..] == rest;
    WordsSkipSpace(" " + rest);
  }

  /** One character in front of two texts with the same words and the same kind of first character keeps their words equal. */
  lemma SameWordsAfterChar(c: char, x: string, y: string)
    requires !IsSpace(c)
    requires Words(x) == Words(y)
    requires (x == [] <==> y == []) && (x != [] ==> (IsSpace(x[0]) <==> IsSpace(y[0])))
    ensures Words([c] + x) == Words([c] + y)
  {
    WordsCons(c, x);
    WordsCons(c, y);
  }

  /** Text already in collapsed form is left unchanged by the substitution. */
  lemma {:induction false} CollapseNormal(s: string, inRun: bool)
    requires SpacesAreBlank(s) && NoAdjacentSpaces(s)
    requires inRun ==> s == [] || !IsSpace(s[0])
    ensures Collapse(s, inRun) == s
  {
    if s != [] {
      CollapseNormal(s[1..], IsSpace(s[0]));
      assert s == [s[0]] + s[1..];
      if IsSpace(s[0]) {
        assert s[0] == ' ' && Collapse(s, inRun) == " " + Collapse(s[1..], true);
      } else {
        assert Collapse(s, inRun) == [s[0]] + Collapse(s[1..], false);
      }
    }
  }

  /** Cutting whitespace off the ends keeps the collapsed form. */
  lemma CutKeepsShape(s: string, i: int, r: string)
    requires CutFrom(s, i, r)
    requires SpacesAreBlank(s) && NoAdjacentSpaces(s)
    ensures SpacesAreBlank(r) && NoAdjacentSpaces(r)
  {
    forall k | 0 <= k < |r| ensures r[k] == s[i + k] { }
  }

  /** A suffix of normalised text that starts after a space is normalised too. */
  lemma SliceKeepsShape(s: string, k: int)
    requires Trimmed(s) && SpacesAreBlank(s) && NoAdjacentSpaces(s)
    requires 0 < k < |s| && IsSpace(s[k - 1])
    ensures Trimmed(s[k..]) && SpacesAreBlank(s[k..]) && NoAdjacentSpaces(s[k..])
  {
    assert s[k..][0] == s[k] && s[k..][|s| - k - 1] == s[|s| - 1];
    forall i | 0 <= i < |s| - k ensures s[k..][i] == s[k + i] { }
  }

  /** Text with no outer whitespace, single plain spaces and no two in a row is its words joined by one space. */
  lemma {:induction false} NormalIsJoin(s: string)
    requires Trimmed(s) && SpacesAreBlank(s) && NoAdjacentSpaces(s)
    ensures s == Join(Words(s), " ")
    decreases |s|
  {
    if s != [] {
      var w := TakeWord(s);
      if |w| == |s| {
        SingleWord(s);
      } else {
        NormalSplit(s);
        var rest := s[|w| + 1..];
        NormalIsJoin(rest);
        JoinCons(w, Words(rest));
      }
    }
  }

  /** A string that is one word all the way through has that word as its only word. */
  lemma SingleWord(s: string)
    requires s != [] && !IsSpace(s[0]) && |TakeWord(s)| == |s|
    ensures Words(s) == [s]
  {
    assert TakeWord(s) == s;
    assert s[|s|..] == [];
  }

  /** A normal string with more than one word is its first word, one blank, and a normal rest. */
  lemma NormalSplit(s: string)
    requires Trimmed(s) && SpacesAreBlank(s) && NoAdjacentSpaces(s)
    requires s != [] && |TakeWord(s)| < |s|
    ensures |TakeWord(s)| + 1 < |s|
    ensures s == TakeWord(s) + " " + s[|TakeWord(s)| + 1..]
    ensures Words(s) == [TakeWord(s)] + Words(s[|TakeWord(s)| + 1..])
    ensures Words(s[|TakeWord(s)| + 1..]) != []
    ensures var rest := s[|TakeWord(s)| + 1..];
      Trimmed(rest) && SpacesAreBlank(rest) && NoAdjacentSpaces(rest)
  {
    var n := |TakeWord(s)|;
    SpaceAfterWord(s, n);
    SliceKeepsShape(s, n + 1);
    WordsAtSpace(s, n);
    assert s == s[..n] + [s[n]] + s[n + 1..];
  }

  /** In normalised text, a word that does not end the text is followed by one plain space and then a non-whitespace character. */
  lemma SpaceAfterWord(s: string, n: int)
    requires Trimmed(s) && SpacesAreBlank(s) && NoAdjacentSpaces(s)
    requires 0 < n < |s| && IsSpace(s[n])
    ensures s[n] == ' ' && n + 1 < |s| && !IsSpace(s[n + 1])
  {
  }

  /** When the first word of `s` is followed by a whitespace character at `n`, the words are that word and the words after `n`. */
  lemma WordsAtSpace(s: string, n: int)
    requires s != [] && !IsSpace(s[0])
    requires n == |TakeWord(s)| && n < |s|
    requires n + 1 < |s| && !IsSpace(s[n + 1])
    ensures Words(s) == [TakeWord(s)] + Words(s[n + 1..])
    ensures Words(s[n + 1..]) != []
  {
    assert s[n..][0] == s[n] && s[n..][1..] == s[n + 1..];
    WordsSkipSpace(s[n..]);
  }

  lemma JoinCons(w: string, ws: seq<string>)
    requires ws != []
    ensures Join([w] + ws, " ") == w + " " + Join(ws, " ")
  {
    assert ([w] + ws)[1..] == ws;
  }

  /**
   * The page text prepared for the chat assistant: whitespace runs collapsed
   * to one space and the ends stripped, which is the same as joining the
   * words of the text with single spaces. No whitespace at either end, none
   * other than a single space, never two in a row, and every non-whitespace
   * character of the input kept in order.
   */
  function ExtractTextForChat(text: string): (r: string)
    ensures r == Join(Words(text), " ")
    ensures Words(r) == Words(text)
    ensures Trimmed(r)
    ensures SpacesAreBlank(r) && NoAdjacentSpaces(r)
    ensures NonSpace(r) == NonSpace(text)
  {
    var c := Collapse(text, false);
    var r := Strip(c);
    var i :| CutFrom(c, i, r);
    CutKeepsShape(c, i, r);
    CollapseKeepsWords(text, false);
    ChatTextWords(c, i, r);
    NormalIsJoin(r);
    r
  }

  /** Cutting whitespace off both ends keeps the words. */
  lemma ChatTextWords(c: string, i: int, r: string)
    requires CutFrom(c, i, r)
    ensures Words(r) == Words(c)
  {
    assert c == c[..i] + (r + c[i + |r|..]);
    WordsAfterSpaces(c[..i], r + c[i + |r|..]);
    WordsBeforeSpaces(r, c[i + |r|..]);
  }

  /** Cleaning cleaned text changes nothing. */
  lemma ChatTextIdempotent(text: string)
    ensures ExtractTextForChat(ExtractTextForChat(text)) == ExtractTextForChat(text)
  {
    var r := ExtractTextForChat(text);
    CollapseNormal(r, false);
    StripTrimmed(r);
  }

  lemma {:induction false} NoNonSpaceIsAllSpace(s: string)
    requires NonSpace(s) == []
    ensures AllSpace(s)
  {
    if s != [] {
      NoNonSpaceIsAllSpace(s[1..]);
    }
  }

  /** Empty and whitespace-only pages clean to the empty string, and only they do. */
  lemma ChatTextEmptyIff(text: string)
    ensures ExtractTextForChat(text) == "" <==> AllSpace(text)
  {
    var r := ExtractTextForChat(text);
    if AllSpace(text) {
      NonSpaceOfSpaces(text);
      NoNonSpaceIsAllSpace(r);
    } else if r == "" {
      NoNonSpaceIsAllSpace(text);
    }
  }
}
