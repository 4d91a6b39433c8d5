# Tax-slip field extraction and custom pattern registry, modelled in Dafny

This project models the extraction core of a tool that bookmarks the pages
of a PDF of Canadian tax slips. From one page's text it:

- classifies the page into a slip type (T4, T4A, T5, T3, T5008, T1135,
  Capital Gains, Summary, or `Unrecognized`) by an ordered rule table where
  the first matching rule wins;
- extracts the social insurance number, the issuer's name and the
  taxpayer's name, each by trying fixed candidate patterns in order;
- prepares the page text for a chat assistant by collapsing whitespace;
- keeps a registry of named custom patterns (five defaults) that callers
  add to and remove from, and extracts one field or all fields with it.

Python's regular-expression engine is treated as an oracle. A
`Regex.Engine` value is any function from (pattern, text, IGNORECASE flag)
to an optional match, plus a "compiles" test, and every operation takes the
engine as a parameter. A match carries group 0 and the list of groups, each
of which may be absent. What the model needs to know about the real engine
is stated as predicates on an engine, and those predicates appear as
preconditions:

- `Sound`: group 0 and every group that took part are slices of the text.
- `CapturesGroup1`: a pattern whose group 1 is not optional produces group
  1 whenever it matches.
- `AgreesOnT4`: the T4 rule matches exactly when "T4" occurs in any case,
  and a T4A match needs "T4A" in any case.

Two things are modelled concretely rather than through the oracle:

- the whitespace class shared by `str.strip()` and `\s`. It is Python's
  Unicode whitespace, listed code point by code point in `PyText.IsSpace`;
- the `re.sub(r'\s+', ' ', …)` substitution used for chat text.

Files: `wrappers.dfy` (Option), `py_text.dfy` (whitespace, `strip`,
`split`, `join`, substrings), `regex.dfy` (the oracle and the find-first search),
`text_extractor.dfy` (the built-in extractor), `custom_patterns.dfy`
(the registry class).

The slip table is a Python dict. Python keeps insertion order, so its
iteration order is the declared order, and the model uses a sequence.

## Model

| member | source | states |
|---|---|---|
| `Regex.FirstMatching` | text_extractor.py:25-27 | the loop's early return as an index: the result matches and no earlier pattern does; absent only when no pattern matches |
| `Regex.FirstMatchUnique` | text_extractor.py:25-27 | any index that matches with nothing matching before it is the one the search returns |
| `Regex.LaterPatternsIgnored` | text_extractor.py:39-42 | patterns after the first match are never consulted: engines that agree up to it give the same answer |
| `PyText.Strip` | text_extractor.py:42 | `str.strip()`: the result is the input minus a whitespace prefix and suffix, has no whitespace at either end, and keeps every non-whitespace character |
| `PyText.StripTrimmed` | text_extractor.py:57 | stripping text with no outer whitespace returns it unchanged |
| `PyText.WordsBeforeSpaces` | text_extractor.py:63-64 | trailing whitespace does not change the words of a text (leading whitespace: `PyText.WordsAfterSpaces`) |
| `PyText.WordsCons` | text_extractor.py:63 | a non-whitespace character put in front of a text starts a new first word or extends the existing one, depending on what follows it |
| `PyText.StripIdempotent` | text_extractor.py:63 | stripping twice equals stripping once |
| `TextExtractor.ExtractSin` | text_extractor.py:5-9 | present exactly when the SIN pattern matches case-sensitively; the value is group 0 verbatim; under a sound engine it is a slice of the page text |
| `TextExtractor.ClassifyBy` | text_extractor.py:25-28 | over any rule table: a label other than `Unrecognized` is that of the first matching rule; when no rule is named `Unrecognized`, that label is returned exactly when no rule matches |
| `TextExtractor.ExtractSlipName` | text_extractor.py:12-28 | the label of the lowest-indexed rule of T4, T4A, T5, T3, T5008, T1135, Capital Gains, Summary that matches case-insensitively; `Unrecognized` exactly when none matches; always one of the nine labels |
| `TextExtractor.SlipNameOfFirstMatch` | text_extractor.py:25-27 | when rule k matches and no earlier rule does, the label is rule k's, whatever later rules would say |
| `TextExtractor.T4LabelIff` | text_extractor.py:15-27 | a page is labelled "T4" exactly when "T4" occurs in it in any case, because the T4 rule's group is optional |
| `TextExtractor.T4AShadowed` | text_extractor.py:15-27 | a page that the T4A rule matches is labelled "T4" |
| `TextExtractor.T4ANeverReturned` | text_extractor.py:15-28 | the label "T4A" is never produced |
| `TextExtractor.T4TitleClassified` | text_extractor.py:15 | a page containing "T4 Statement of Remuneration Paid" is labelled "T4" |
| `TextExtractor.ExtractSlipNameCorrected` | text_extractor.py:14-28 | the same classification with the T4A rule placed before the T4 rule; `Unrecognized` exactly when no rule matches |
| `TextExtractor.CorrectedT4AReachable` | text_extractor.py:16 | with the corrected order, a page that the T4A rule matches is labelled "T4A" |
| `Regex.SwapFirstTwo` | text_extractor.py:25-27 | when the second of two leading patterns does not match, swapping them moves only a match of the first from index 0 to index 1 |
| `TextExtractor.ClassifySwapFirstTwo` | text_extractor.py:25-28 | over any rule table, swapping the first two rules changes no label for a page the second rule does not match |
| `TextExtractor.CorrectedAgreesElsewhere` | text_extractor.py:14-28 | the corrected order gives the same label as the original on every page the T4A rule does not match |
| `TextExtractor.FirstStrippedGroup` | text_extractor.py:39-43 | absent exactly when no candidate matches; otherwise the stripped group 1 of the first matching candidate, with no outer whitespace and, under a sound engine, a slice of the text |
| `TextExtractor.FirstStrippedGroupAt` | text_extractor.py:39-42 | the first matching candidate alone decides the result |
| `TextExtractor.ExtractIssuerName` | text_extractor.py:31-43 | over the three issuer candidates, case-insensitive: absent exactly when none matches, else the stripped group 1 of the first that matches; no outer whitespace; a slice of the text under a sound engine |
| `TextExtractor.IssuerFirstCandidateWins` | text_extractor.py:33-42 | when the first issuer candidate matches, its stripped group 1 is the result |
| `TextExtractor.ExtractTaxpayerName` | text_extractor.py:46-58 | over the three taxpayer candidates, case-insensitive: absent exactly when none matches, else the stripped group 1 of the first that matches; no outer whitespace; a slice of the text under a sound engine |
| `TextExtractor.Collapse` | text_extractor.py:63 | the whitespace substitution leaves only single plain spaces, never two in a row, and the same non-whitespace characters in order; it is empty, or starts with whitespace, exactly when its input is or does |
| `TextExtractor.CollapseEnd` | text_extractor.py:63 | the result's last character: unless the whole text is whitespace continuing a run already written, the result is non-empty and ends in whitespace exactly when its input does, so a trailing whitespace run becomes one space |
| `TextExtractor.CollapseAllSpace` | text_extractor.py:63 | a whitespace-only text continuing a run adds nothing; outside a run it becomes one space (`CollapseSpaceRun`) |
| `TextExtractor.CollapseKeepsWords` | text_extractor.py:63 | the substitution keeps the words (`str.split()`) of its input, in order |
| `TextExtractor.CollapseNormal` | text_extractor.py:63 | text already in that form is left unchanged by the substitution |
| `TextExtractor.ExtractTextForChat` | text_extractor.py:61-64 | the result equals `" ".join(text.split())`: the input's words, in order, separated by exactly one space; hence no outer whitespace, no whitespace other than single spaces, and no two in a row |
| `TextExtractor.NormalIsJoin` | text_extractor.py:63-64 | text with no outer whitespace, only single plain spaces and no two in a row is its words joined by one space |
| `TextExtractor.ChatTextIdempotent` | text_extractor.py:63-64 | cleaning cleaned text changes nothing |
| `TextExtractor.ChatTextEmptyIff` | text_extractor.py:63-64 | the result is empty exactly when the input is empty or only whitespace |
| `CustomPatterns.Capture` | custom_patterns.py:37-38 | group 1 when the pattern has groups (possibly absent), else group 0; absent when nothing matched |
| `CustomPatterns.CaptureWithin` | custom_patterns.py:37-38 | under a sound engine, a captured value is a slice of the text |
| `CustomPatterns.CustomPatternManager.constructor` | custom_patterns.py:5-13 | a fresh registry holds exactly amount, date, account_number, box_number and box_amount with the listed patterns |
| `CustomPatterns.CustomPatternManager.AddPattern` | custom_patterns.py:15-23 | returns whether the pattern compiles; on success sets that one entry (overwriting), on failure changes nothing; keeps "every stored pattern compiles"; afterwards the field extracts with the new pattern |
| `CustomPatterns.CustomPatternManager.RemovePattern` | custom_patterns.py:25-30 | returns whether the name was present; deletes that entry only; keeps "every stored pattern compiles"; afterwards the field extracts as absent |
| `CustomPatterns.CustomPatternManager.ExtractField` | custom_patterns.py:32-38 | absent for an unknown name or no match; group 1 when the pattern has groups, else group 0; searched case-sensitively; a slice of the text under a sound engine; only reads the registry |
| `CustomPatterns.CustomPatternManager.ExtractAllFields` | custom_patterns.py:40-47 | exactly the registered names whose extraction is present and non-empty, each mapped to that extraction; changes nothing |
| `CustomPatterns.RemoveTwice` | custom_patterns.py:25-30 | a second removal of the same name reports failure and the first removal's deletion stands |
| `CustomPatterns.AddInvalid` | custom_patterns.py:17-23 | adding a pattern that does not compile reports failure and keeps the registry's size |

## Findings

| source | as written | input that shows it | evidently intended | confidence | as-written member | corrected member |
|---|---|---|---|---|---|---|
| text_extractor.py:15-16 | the T4 rule comes first, and its title group is optional, so it matches any page containing "T4", including every T4A page | a page reading "T4A Statement of Pension" is labelled "T4" | T4A slips labelled "T4A" (the rule exists for them) | high (proved from the table's order and the T4 rule's meaning; not executed) | `TextExtractor.T4ANeverReturned` | `TextExtractor.CorrectedT4AReachable` |

`TextExtractor.ExtractSlipName` keeps the order as written. The corrected
order is in `TextExtractor.ExtractSlipNameCorrected`, and
`TextExtractor.CorrectedAgreesElsewhere` shows it differs from the original
only on pages the T4A rule matches.

## Left out

- The Streamlit interface (main.py) and the PDF reading, bookmarking and writing (pdf_processor.py) are not part of this model. They are I/O and presentation.
- The meaning of each regular expression is not modelled. `re.search` and `re.compile` are the `Regex.Engine` oracle. The exceptions are the facts about the T4 and T4A rules in `AgreesOnT4`, and the whitespace class and `\s+` substitution used for chat text.
- Because patterns are opaque, properties that depend on what a pattern matches are not proved. Examples: that an empty page yields no SIN, issuer or taxpayer, and the concrete amount and issuer examples.
- Python's wider case folding under `re.IGNORECASE` (such as the long s or the Kelvin sign) is not modelled. The T4 facts involve only "T", "t", "A", "a" and "4", which have no other case variants.
- `TextExtractor.ExtractIssuerName` and `TextExtractor.ExtractTaxpayerName` require `CapturesGroup1`. In Python, a match without group 1 would raise `AttributeError`. That cannot happen, because group 1 of each candidate is not optional, so the model does not represent the exception.
- `CustomPatterns.CustomPatternManager.constructor` does not promise that the default patterns compile. The code never checks them. `AddPattern` preserves "every stored pattern compiles" only when it held before.
- The SIN search is case-sensitive (no flag). Registry entries are bare pattern strings, and group 1 is always preferred (no group-index field). `extract_all_fields` drops empty-string results as well as absent ones.
- CustomPatterns.CustomPatternManager.AddPattern: the model has only two compile outcomes. In Python, `add_pattern` catches only `re.error`. Other exceptions from `re.compile` propagate to the caller instead of returning `False`, for example `OverflowError` for a repeat count at or above the engine's maximum, or `RecursionError` for deeply nested patterns. The model counts such a pattern as compiling, so `AddPattern` returns `true` and stores it, where Python raises and stores nothing.
- There is no bound on regex backtracking and no locking around the registry. Neither exists in the code.
- Python dictionary iteration order in `extract_all_fields` is not modelled. The loop visits keys in an arbitrary order, and the result is a map that does not depend on that order.
