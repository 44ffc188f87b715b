# wap in Dafny

A Dafny model of the core of *wap*, a Python library that recognises the web
technologies behind a page from Wappalyzer's `technologies.json` rule set. It
covers the three core modules:

- **Loading** (`wap/load.py`): each rule string `regex\;version:...\;confidence:...`
  becomes a `Pattern`. Pattern sections are normalised into a flat list or a
  keyed dictionary. Categories are resolved by id, and the technologies are keyed
  by name.
- **Matching** (`wap/match.py`, first half): each technology's patterns are run
  against the URL, headers, cookies, HTML, meta tags, script URLs and JavaScript
  variables, in that field order. Each hit becomes a `PatternMatch` whose version
  comes from the `\1` / `\1?a:b` template.
- **Resolution** (`wap/match.py`, second half):
  - hits are deduplicated;
  - hits are aggregated per technology into `TechMatch`es (clamped confidence
    sum, longest version of at most ten characters);
  - implied technologies are added, recursively, with cycles cut;
  - excluded technologies are removed.
- **Records** (`wap/structs.py`): `Category`, `Imply`, `Exclude`, `Pattern`,
  `Technology`, `PatternMatch` and `TechMatch`, with their equality and hashing.

Modules and files:

| file | module | models |
|---|---|---|
| `wrappers.dfy` | `Wrappers` | `Option` and `Result` |
| `strings.dfy` | `Strings` | `str.lower`, `strip`, `find`, `split`/`join`, `replace`, `int()`, on `seq<char>` |
| `dicts.dfy` | `Dicts` | Python dictionaries as insertion-ordered `seq<(string, V)>`, with `get` and item assignment |
| `structs.dfy` | `Structs` | the records, field access `tech[field]`, `__eq__`/`__hash__`, and the loading and matching errors |
| `version.dfy` | `Version` | `_resolve_version` |
| `load.dfy` | `Load` | `_parse_pattern`, `_transform_patterns`, `load_categories`, `load_apps` over a JSON value |
| `matcher.dfy` | `Matcher` | `_match_patterns`, `match_str`, `match_list`, `match_pairs`, `match_all` |
| `aggregate.dfy` | `Aggregate` | `list(set(pattern_matches))` and `extract_techno_matches` |
| `implies.dfy` | `Implies` | `resolve_implies` and `_resolve_implies_inner` |
| `excludes.dfy` | `Excludes` | `resolve_excludes` |
| `resolve.dfy` | `Resolve` | `resolve_techno_matches` and `discover_technologies` |

External behaviour is passed in as parameters:

- The regular-expression engine is a parameter
  `search: (source, value) -> Option<groups>`. Index 0 of the groups is the whole
  match, and a group that did not take part is `None`.
- Whether `re.compile` accepts a source is a parameter `compiles`.
- Every exception the Python code can raise on the inputs the model represents is a `Failure` of an
  `Error` value. This covers a missing section, an unknown category, a rejected
  regex, a non-integer confidence, a pattern dictionary where a list is iterated
  (and the reverse), a `regex:` attribute that leaves text where a compiled
  regex is expected, and an implied technology missing from the rule set.

Loops in the source are methods with loop invariants, each proved equal to a
specification function:

- `ParsePattern` (attribute loop) and `TransformPatterns` (key loop);
- `LowerCookieKeys`;
- `ResolveVersion` (group loop) and `ExtractTechnoMatches` (two nested loops);
- `Visit` (loop over the implied matches, recursive) equals `VisitSpec`, and
  `ResolveImplies` equals `ResolveImpliesSpec`. Together they fix the
  depth-first order and keep the confidence of an entry's first visit;
- `ResolveExcludes`.

The rest is functions with lemmas about them. Where the code and the
documentation disagree, the model follows the code:

- Rule keys of the `headers`, `cookies` and `meta` sections are lower-cased at
  load time (`wap/load.py:149`). A header is found only when the caller supplies
  its name in lower case; `HeadersCaseSensitive` records this.
- A ternary template is replaced in the original template, not in the string
  already rewritten for the earlier groups (`wap/match.py:338-341`). A ternary
  on a later group therefore discards the substitutions already made for the
  earlier groups (`TernaryRebuildsFromTemplate`).
- The confidence fold clamps at every step (`wap/match.py:381`). It equals
  `min(100, sum)` only when no confidence is negative (`ConfidenceIsClampedSum`,
  `ClampIsStepwise`).
- An empty URL or HTML string skips its field, even when a pattern would match
  the empty string (`wap/match.py:70-89`).
- `PatternMatch.__eq__` compares `self.pattern.key` with itself
  (`wap/structs.py:203-206`), so two hits are equal exactly when their technology
  names are. `extract_techno_matches` relies on this to compare a hit with a
  `TechMatch`, so it is modelled as written.

## Model

| member | source | states |
|---|---|---|
| Strings.LowerIsLower | wap/match.py:276-281 | `str.lower` leaves no upper-case ASCII letter and lowering twice changes nothing |
| Strings.StripIdempotent | wap/match.py:343 | stripping a stripped string leaves it unchanged |
| Strings.StripSlice | wap/match.py:343 | the stripped string is a slice of the input with no leading or trailing whitespace |
| Strings.JoinSplit | wap/load.py:177-179 | joining the split pieces with the separator gives back the original string |
| Strings.SplitPiecesFree | wap/load.py:163 | no piece produced by `split` contains the separator |
| Strings.SplitAtFirst | wap/load.py:163 | the first piece is everything before the first separator, and the rest joins back to everything after it |
| Strings.ReplaceAbsent | wap/match.py:343-346 | replacing a token that does not occur leaves the string unchanged |
| Strings.ParseIntRoundTrip | wap/load.py:184 | `int(str(n)) == n` for every integer |
| Dicts.GetPut | wap/load.py:150 | after `d[k] = v`, `d.get(k)` is `v` and every other key reads as before |
| Dicts.PutKeepsDistinct | wap/load.py:150 | item assignment keeps keys distinct, adds `k`, and adds no other key |
| Structs.HitEqIsNameEq | wap/structs.py:203-206 | `PatternMatch.__eq__` holds exactly when the technology names are equal |
| Structs.HitEqTechIsNameEq | wap/structs.py:203-206 | comparing a hit with a `TechMatch` also compares only names |
| Structs.TechEqIgnoresConfidenceAndVersion | wap/structs.py:235-236 | two matches of one technology are equal whatever their confidence and version |
| Structs.SetMergesIsKeyEq | wap/structs.py:203-211 | a set merges two hits exactly when their (name, key, value) hash tuples agree |
| Structs.HitEqCoarserThanKey | wap/structs.py:203-211 | two hits of one technology on different rules are equal, yet hash on different tuples |
| Version.ResolveVersion | wap/match.py:311-348 | the group loop computes the template rewrite: an empty template or a failed search returns the template unchanged, otherwise every group is substituted in turn |
| Version.ResolveVersionSpec | wap/match.py:321-328 | an empty template, or a regex that does not match, returns the template unchanged |
| Version.NoTernaryWithoutBackslash | wap/match.py:332 | a template without a backslash contains no ternary |
| Version.PlainTemplateIsStripped | wap/match.py:329-348 | a template without backslashes resolves to itself, stripped |
| Version.BackReference | wap/match.py:343-346 | the template `\1` resolves to the first group's text, or to `""` when that group did not take part |
| Version.TernaryTemplate | wap/match.py:332-346 | `\1?a:b` resolves to the stripped `a` when group 1 matched non-empty text, and to the stripped `b` otherwise |
| Version.TernaryRebuildsFromTemplate | wap/match.py:332-346 | for `\1 \2?x:y` the ternary of group 2 is replaced in the original template, so the text of group 1 is lost and `\1 ` stays in the result |
| Version.TestTernaryCommunity | tests/test_version.py:5-10 | the Magento template gives `Community` when the optional group is absent |
| Version.TestTernaryEnterprise | tests/test_version.py:12-16 | the Magento template gives `Enterprise` when the optional group matched |
| Version.TestBackReference | tests/test_version.py:19-25 | `\1` on the MathJax script gives `3.3` |
| Load.AttrOfIsSplit | wap/load.py:176-179 | splitting an attribute at `:`, testing for more than one piece and rejoining the tail with `:` is a cut at the first colon |
| Load.SetAttrsLastWins | wap/load.py:176-179 | an attribute's final value is that of its last occurrence, or the initial entry when it never occurs |
| Load.ParsePattern | wap/load.py:158-187 | the attribute loop computes the parse: a rejected regex fails, otherwise the attributes give value, regex, confidence and version |
| Load.ParsePatternFacts | wap/load.py:158-187 | the pattern keeps its key; parsing fails with the regex error exactly when the translated first piece does not compile; a compiled regex is that translation |
| Load.ParsePlain | wap/load.py:163-187 | a rule with no `\;` gives confidence 100, an empty version and that rule as value |
| Load.ParseFormatted | wap/load.py:163-187 | `value\;version:v\;confidence:n` parses to that value, version and confidence |
| Load.ParseConfidence | wap/load.py:184 | a `confidence:` attribute sets the pattern's confidence to its integer |
| Load.ParseBadConfidence | wap/load.py:184 | a `confidence:` attribute that is not an integer fails with that text |
| Load.ParseRegexAttr | wap/load.py:172-182 | a `regex:` attribute replaces the compiled regex by its text |
| Load.TranslateExamples | wap/load.py:170 | a value with no `/` and no `[^]` is compiled unchanged, and `[^]` becomes `.` |
| Load.ParseListMeaning | wap/load.py:150-153 | the rule list parses exactly when every rule parses, to one pattern per rule, in order |
| Load.TransformPatterns | wap/load.py:130-155 | the key loop computes the normalisation; falsy input gives an empty list |
| Load.TransformSpec | wap/load.py:139-140 | a falsy section gives an empty list |
| Load.TransformOfParsed | wap/load.py:147-155 | once parsed, a `main` entry is returned as a list, otherwise the dictionary |
| Load.ParseEntriesSucceeds | wap/load.py:147-153 | normalisation succeeds exactly when every entry's rules parse |
| Load.ParseEntriesLookup | wap/load.py:147-153 | each normalised key holds the parse of the last entry whose key normalises to it |
| Load.TransformRule | wap/load.py:142-145 | a single rule string becomes a one-pattern list keyed `main` |
| Load.TransformRules | wap/load.py:142-145 | a list of rules becomes the list of their patterns keyed `main` |
| Load.TransformMapping | wap/load.py:147-155 | a mapping with no `main` key becomes a dictionary with distinct keys, lower-case unless case-sensitive, each holding its rules' patterns |
| Load.TransformMainKey | wap/load.py:155 | a mapping with a key that normalises to `main` becomes a list |
| Load.TransformKeysLower | wap/load.py:149 | case-insensitive normalisation leaves only lower-case keys |
| Load.LoadCategories | wap/load.py:101-127 | every category is stored under its own id |
| Load.CategoriesLookup | wap/load.py:121-127 | looking up an id gives the category built from that id's name and priority |
| Load.CategoriesOfMeaning | wap/load.py:75 | the `cats` list resolves exactly when every id is a known category, to those categories in order |
| Load.LoadTech | wap/load.py:72-94 | a technology keeps its name, its categories resolve, each field is its section normalised (case-sensitive only for `js`), `implies` takes each normalised pattern's value and confidence, and `excludes` each pattern's value |
| Load.PlainRelation | wap/load.py:83-90 | a plain rule `X` in `implies` gives `Imply(X, 100)`, and in `excludes` gives `Exclude(X)` |
| Load.LoadTechShape | wap/load.py:76-81 | every field but `js` has lower-case keys, and every category comes from the category table |
| Load.LoadTechs | wap/load.py:72-95 | every technology is stored under its own name, and the keys are those of the technology section |
| Load.LoadTechsSucceeds | wap/load.py:72-95 | the technologies comprehension succeeds exactly when every entry of the section loads |
| Load.LoadTechsLookup | wap/load.py:72-95 | with distinct names, each name holds the technology loaded from its own entry, and names outside the section are untouched |
| Load.LoadApps | wap/load.py:51-98 | a missing `categories` or `technologies` section fails; otherwise loading succeeds exactly when every technology entry loads, the categories are `load_categories` of their section, keyed by id, and (with distinct names) each technology name holds the technology loaded from its entry, over the same keys |
| Load.ImplyWithConfidence | wap/load.py:83-86 | an `implies` rule `name\;confidence:n` gives `Imply(name, n)` |
| Load.ImpliesOfOne | wap/load.py:83-86 | an implication takes its pattern's value and confidence |
| Matcher.MatchPatternsMeaning | wap/match.py:292-308 | a hit is yielded exactly for the patterns that fire, in pattern order, each with its resolved version; only a text `regex:` fails |
| Matcher.MatchEachSound | wap/match.py:237-254 | every hit of `match_list` comes from a firing pattern on one of the values |
| Matcher.MatchEachComplete | wap/match.py:237-254 | every firing pattern on every value yields its hit |
| Matcher.LowerCookieKeys | wap/match.py:276-279 | the loop computes the lower-cased cookie dictionary |
| Matcher.LowerKeysMeaning | wap/match.py:276-279 | the lower-cased dictionary has distinct lower-case keys, each holding the value of the last cookie that lower-cases to it |
| Matcher.LowerKeysIdempotent | wap/match.py:276-279 | lower-casing cookie names twice changes nothing |
| Matcher.MatchKeysOnlyDeclared | wap/match.py:283-289 | only values supplied under a key the rule declares affect the result |
| Matcher.MatchKeysSound | wap/match.py:283-289 | every hit comes from a firing pattern on a value supplied under a declared key |
| Matcher.MatchKeysComplete | wap/match.py:283-289 | a pattern declared under a key that fires on a value supplied under that key yields its hit |
| Matcher.CookiesCaseInsensitive | wap/match.py:276-281 | cookie matching does not depend on the case of the supplied names |
| Matcher.HeadersCaseSensitive | wap/match.py:280-286 | a supplied `Server` header does not meet a rule on `server` |
| Matcher.FieldOrderMeaning | wap/match.py:70-89 | `match_all` tries exactly the supplied fields, in the fixed order url, headers, cookies, html, meta, scripts, js |
| Matcher.MatchAllNothingSupplied | wap/match.py:43-94 | with no input supplied there are no hits |
| Matcher.MatchAllTechnologies | wap/match.py:93-94 | every hit belongs to a technology of the rule set |
| Matcher.MatchFieldSound | wap/match.py:226-289 | every hit of one field is a pattern of that field firing on a value offered to it (the URL, the HTML, a script, or a value under the pattern's key, lower-cased for cookies) |
| Matcher.MatchFieldComplete | wap/match.py:226-289 | every pattern of a field that fires on a value offered to it yields its hit |
| Matcher.MatchFieldsSound | wap/match.py:63-65 | every hit of a technology comes from one of the fields tried |
| Matcher.MatchFieldsComplete | wap/match.py:63-65 | a firing pattern of any field tried yields its hit |
| Matcher.MatchAllSound | wap/match.py:43-94 | every hit of `match_all` is, for some technology of the rule set, a pattern of a supplied field firing on a value offered to it |
| Matcher.MatchAllComplete | wap/match.py:43-94 | for every technology and every supplied field, a pattern firing on a value offered to it yields its hit |
| Matcher.MatchFieldsOfTech | wap/match.py:64-66 | the hits for one technology are all of that technology |
| Matcher.DiscoverSkipsJs | wap/match.py:30-38 | `discover_technologies` never matches JavaScript variables |
| Aggregate.DedupMeaning | wap/match.py:358 | the set keeps one hit per (name, key, value) tuple, covers every tuple present, and keeps only hits that occur |
| Aggregate.SameRuleCountsOnce | wap/match.py:358 | one rule firing on two values counts once |
| Aggregate.ExtractTechnoMatches | wap/match.py:365-391 | the nested loops compute the per-technology aggregation |
| Aggregate.ExtractNames | wap/match.py:371-373 | exactly the technologies with a hit are listed, each once |
| Aggregate.ExtractIsFirsts | wap/match.py:371-391 | the list has one aggregated match per technology, in order of first hit |
| Aggregate.ConfidenceBounds | wap/match.py:381 | the aggregated confidence is at most 100, and not negative when no pattern confidence is |
| Aggregate.ConfidenceIsClampedSum | wap/match.py:381 | with non-negative confidences, the aggregated confidence is the sum clamped at 100 |
| Aggregate.ClampIsStepwise | wap/match.py:381 | once the running total has passed 100, a negative confidence lowers it from 100, so the stepwise clamp ends below the clamped sum |
| Aggregate.VersionChoice | wap/match.py:382-384 | the version is at most ten characters, no candidate is longer, and it is the first candidate of its length |
| Aggregate.ExtractFacts | wap/match.py:365-391 | every match comes from a hit, with confidence at most 100 and version at most ten characters |
| Aggregate.TwoPatternsOneMatch | wap/match.py:365-391 | two hits of one technology, at 50 and 70, give one match at 100 |
| Implies.Visit | wap/match.py:407-423 | the recursive method with its loop over the implied matches computes the depth-first visit `VisitSpec`: an already listed name returns the list, otherwise the match is appended and each implied match is visited in turn on the list the previous one returned |
| Implies.VisitSpecOk | wap/match.py:407-423 | a visit extends the list and lists the match once, closed under implication from it; every added entry is implied by an earlier one; it fails only on an unknown implied name, never on a closed rule set, and appends just the match when it implies nothing |
| Implies.ImpliedUpTo | wap/match.py:414-421 | the implied matches are built in order, each at the lower confidence and with no version; the first unknown name fails |
| Implies.ResolveImplies | wap/match.py:394-404 | the loop computes `ResolveImpliesSpec`: each match visited in input order on one list that starts empty |
| Implies.ResolveImpliesOk | wap/match.py:394-423 | the result lists every match, names are distinct, it is closed under implication, each entry is a match or implied, and the first match stays first; it fails only on an unknown name, never on a closed rule set, and changes nothing without implications |
| Implies.ResolvedConfidenceBound | wap/match.py:417 | implication never raises a confidence above the matches' bound |
| Implies.ResolvedVersions | wap/match.py:418 | an implied entry has an empty version |
| Excludes.ResolveExcludes | wap/match.py:426-450 | the loop computes the exclusion pass and keeps the first match |
| Excludes.WithoutMeaning | wap/match.py:441-445 | filtering keeps, in order, exactly the matches whose name is not excluded |
| Excludes.ExcludeSubseq | wap/match.py:426-450 | the survivors are a subsequence of the input |
| Excludes.ExcludeConflictFree | wap/match.py:426-450 | no surviving match is excluded by a survivor before it |
| Excludes.NoExcludesIdentity | wap/match.py:426-450 | without exclusions every match survives |
| Excludes.ExcludeIsGreedy | wap/match.py:426-450 | the pass equals one left-to-right greedy scan that drops what a kept match excludes |
| Resolve.ResolveTechnoMatches | wap/match.py:351-362 | the method computes `ResolveSpec`: deduplicate, aggregate, resolve implications, then exclusions |
| Resolve.ResolveSpecOk | wap/match.py:351-362 | the result is the exclusion pass over a resolved implication closure of the aggregated deduplicated hits; it is well-formed, fails only on an unknown implied name, never on hits of a closed rule set, and no hits give none |
| Resolve.PipelineBounds | wap/match.py:351-362 | excluded resolved aggregates have distinct names, no conflicts, confidence at most 100 and versions of at most ten characters |
| Resolve.DiscoverTechnologies | wap/match.py:10-40 | a matching failure is passed on; otherwise the result is `ResolveSpec` over the hits of `match_all` without JavaScript variables; it is well-formed, succeeds on a closed rule set, and no input gives no technologies |
| Resolve.DepthFirstOrder | wap/match.py:394-450 | with `A` implying `B` and `C` at 100, `B` implying `C` at 10 and excluding `C`, a hit on `A` at 50 resolves to `A`, `B` at 50, `C` at 10, and the exclusion pass leaves `A`, `B` |

## Left out

- Regular expressions: `re.search`, `re.I` and what `re.compile` accepts are parameters. The model states what holds for any engine. Only the ternary pattern of `_resolve_version` is matched in Dafny, because its shape is fixed.
- `str.strip`, `str.lower` and `int()` follow the ASCII rules. Unicode whitespace, non-ASCII case mappings and non-ASCII digits are not modelled.
- A Python `set` iterates in hash order. `list(set(...))` is modelled as keeping the first hit of each (name, key, value) tuple in arrival order. The order of the reported technologies therefore follows first arrival. Hash collisions between different tuples are not modelled.
- JSON input is abstract: pattern sections are a string, a list of strings, a mapping, or absent. Other scalar types, and `categories` ids of other types, are not modelled. Dictionary keys of the input are assumed distinct, as JSON objects produce them.
- `None` arguments of `match_all` and `discover_technologies` are modelled as an empty string, list or dictionary, which the code treats the same way.
- Reading files and streams, the `icon`, `website` and `cpe` attributes, logging and `__repr__` are left out, because they do not affect matching.
- Generators are modelled as the full list they yield. Laziness and the iteration order of a consumer are not modelled.
- `_resolve_implies_inner` mutates one shared list. The model passes the list in and returns it, so aliasing is not modelled.
- `Technology.__getitem__` and `Technology.get` are modelled as `Technology.Patterns`, field access by name, for the seven pattern fields only.
- A category object without a `name` or `priority` makes `load_categories` raise `KeyError` (`wap/load.py:121-126`). Raw categories always carry both, so this error is not modelled.
- `_resolve_implies_inner` recurses once per implication level, so a very long implication chain raises Python's `RecursionError`. The model has no recursion limit and resolves such chains.
- Implies.ResolveImplies: on failure it states the error, not the partial list that the shared list holds at the moment of the exception.
