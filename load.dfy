/**
 * The loader: from the decoded technology database (a JSON value) to
 * technologies and categories. Rule strings are parsed into patterns,
 * pattern fields are canonicalised to a list or a keyed mapping, and the
 * implies and excludes relations are read from the same rule syntax.
 */
module Load {
  import opened Wrappers
  import opened Strings
  import opened Dicts
  import opened Structs

  // ---------------------------------------------------------------------
  // The decoded JSON the loader reads

  /** The value under one key of a pattern object: a rule or a list of rules. */
  datatype RawEntry = One(rule: string) | Many(rules: seq<string>)

  /** A pattern field as the database writes it; `Absent` is a missing key (or `null`). */
  datatype RawPatterns =
    | Absent
    | Str(rule: string)
    | Arr(rules: seq<string>)
    | Obj(entries: Dict<RawEntry>)

  datatype RawCategory = RawCategory(name: string, priority: int)

  /** One technology object; a missing `cats` reads as the empty list. */
  datatype RawTech = RawTech(
    cats: seq<int>,
    url: RawPatterns,
    headers: RawPatterns,
    cookies: RawPatterns,
    html: RawPatterns,
    meta: RawPatterns,
    scripts: RawPatterns,
    js: RawPatterns,
    implies: RawPatterns,
    excludes: RawPatterns)

  /** The top-level object; `None` marks a missing section. */
  datatype RawDb = RawDb(categories: Option<Dict<RawCategory>>, technologies: Option<Dict<RawTech>>)

  /** Whether `re.compile` accepts a (translated) regex source. */
  type Compiles = string -> bool

  // ---------------------------------------------------------------------
  // _parse_pattern

  /** The separator between a rule's regex and its attributes. */
  const Sep: string := "\\;"

  /** The regex source made from a rule's value: `/` is escaped and `[^]` becomes `.`. */
  function Translate(value: string): string {
    Replace(Replace(value, "/", "\\/"), "[^]", ".")
  }

  /** An attribute part's name and value: the text before and after its first colon. */
  function AttrOf(part: string): Option<(string, string)> {
    match Find(part, ":")
    case None => None
    case Some(i) => Some((part[..i], part[i + 1..]))
  }

  /** `attr.split(":")`, the guard `len(attr) > 1`, then `attr[0]` and `":".join(attr[1:])`, is `AttrOf`. */
  lemma AttrOfIsSplit(part: string)
    ensures var attr := Split(part, ":");
      AttrOf(part) == if |attr| > 1 then Some((attr[0], Join(attr[1..], ":"))) else None
  {
    SplitAtFirst(part, ":");
  }

  /**
   * The `for attr in parts[1:]` loop over the attribute dictionary, with
   * the two initial entries (`value`, `regex`) kept apart: `attrs` holds
   * only what the parts assign.
   */
  function SetAttrs(attrs: Dict<string>, parts: seq<string>): Dict<string>
    decreases |parts|
  {
    if parts == [] then attrs
    else
      var next := match AttrOf(parts[0]) case Some((k, v)) => Put(attrs, k, v) case None => attrs;
      SetAttrs(next, parts[1..])
  }

  /** An independent reading of the attributes: the value given by the LAST part naming `k`. */
  function LastAttr(parts: seq<string>, k: string): Option<string>
    decreases |parts|
  {
    if parts == [] then None
    else
      var later := LastAttr(parts[1..], k);
      if later.Some? then later
      else match AttrOf(parts[0]) case Some((k', v)) => (if k' == k then Some(v) else None) case None => None
  }

  /** The attribute loop lets the last assignment of each name win. */
  lemma {:induction false} SetAttrsLastWins(attrs: Dict<string>, parts: seq<string>, k: string)
    ensures Get(SetAttrs(attrs, parts), k) == if LastAttr(parts, k).Some? then LastAttr(parts, k) else Get(attrs, k)
    decreases |parts|
  {
    if parts != [] {
      match AttrOf(parts[0])
      case Some((k', v)) =>
        SetAttrsLastWins(Put(attrs, k', v), parts[1..], k);
        GetPut(attrs, k', v, k);
      case None =>
        SetAttrsLastWins(attrs, parts[1..], k);
    }
  }

  /** One attribute part, then the rest. */
  lemma SetAttrsCons(attrs: Dict<string>, part: string, rest: seq<string>, k: string, v: string)
    requires AttrOf(part) == Some((k, v))
    ensures SetAttrs(attrs, [part] + rest) == SetAttrs(Put(attrs, k, v), rest)
  {
    assert ([part] + rest)[1..] == rest;
  }

  /** `int(attrs.get("confidence", 100))`. */
  function Confidence(text: Option<string>): Result<int, Error> {
    match text
    case None => Success(100)
    case Some(t) =>
      match ParseInt(t)
      case Some(n) => Success(n)
      case None => Failure(InvalidConfidence(t))
  }

  /**
   * `_parse_pattern(pattern, key)`: the regex is compiled (and may be
   * rejected) before any attribute is read; a `value:` attribute replaces
   * the value, a `regex:` attribute replaces the compiled regex by text.
   */
  function ParsePatternSpec(pattern: string, key: string, compiles: Compiles): Result<Pattern, Error>
  {
    var parts := Split(pattern, Sep);
    FromParts(parts[0], Translate(parts[0]), parts[1..], key, compiles)
  }

  /**
   * A parsed rule keeps the key it was parsed under; it fails with
   * `InvalidRegex` exactly when the translated value does not compile,
   * and a compiled regex is that translated value.
   */
  lemma ParsePatternFacts(pattern: string, key: string, compiles: Compiles)
    ensures var r := ParsePatternSpec(pattern, key, compiles);
      var regex := Translate(Split(pattern, Sep)[0]);
      && (r.Success? ==> r.value.key == key)
      && (!compiles(regex) <==> r == Failure(InvalidRegex(regex)))
      && (r.Success? && r.value.regex.Compiled? ==> r.value.regex.source == regex)
  {
  }

  /** The body of `_parse_pattern` once the rule is split into its value and its attribute parts. */
  function FromParts(value: string, regex: string, attrParts: seq<string>, key: string, compiles: Compiles): Result<Pattern, Error> {
    if !compiles(regex) then Failure(InvalidRegex(regex))
    else PatternOf(value, regex, SetAttrs([], attrParts), key)
  }

  /** The `Pattern(...)` call reading the attribute dictionary. */
  function PatternOf(value: string, regex: string, attrs: Dict<string>, key: string): Result<Pattern, Error> {
    var confidence :- Confidence(Get(attrs, "confidence"));
    Success(Pattern(
      value := GetOr(attrs, "value", value),
      regex := match Get(attrs, "regex") case Some(t) => Uncompiled(t) case None => Compiled(regex),
      confidence := confidence,
      version := GetOr(attrs, "version", ""),
      key := key))
  }

  /** `_parse_pattern`, with its attribute loop. */
  method ParsePattern(pattern: string, key: string, compiles: Compiles) returns (r: Result<Pattern, Error>)
    ensures r == ParsePatternSpec(pattern, key, compiles)
  {
    var parts := Split(pattern, Sep);
    var value := parts[0];
    var regex := Translate(value);
    if !compiles(regex) {
      return Failure(InvalidRegex(regex));
    }
    var attrs: Dict<string> := [];
    var goal := SetAttrs([], parts[1..]);
    for i := 1 to |parts|
      invariant SetAttrs(attrs, parts[i..]) == goal
    {
      SetAttrsStep(attrs, parts, i);
      AttrOfIsSplit(parts[i]);
      var attr := Split(parts[i], ":");
      if |attr| > 1 {
        attrs := Put(attrs, attr[0], Join(attr[1..], ":"));
      }
    }
    assert parts[|parts|..] == [];
    ParseFromAttrs(pattern, parts, attrs, key, compiles);
    var confidence := 100;
    var text := Get(attrs, "confidence");
    if text.Some? {
      var n := ParseInt(text.value);
      if n.None? {
        return Failure(InvalidConfidence(text.value));
      }
      confidence := n.value;
    }
    var rx := if HasKey(attrs, "regex") then Uncompiled(Get(attrs, "regex").value) else Compiled(regex);
    r := Success(Pattern(GetOr(attrs, "value", value), rx, confidence, GetOr(attrs, "version", ""), key));
  }

  /** One iteration of the attribute loop, read off the fold. */
  lemma SetAttrsStep(attrs: Dict<string>, parts: seq<string>, i: nat)
    requires i < |parts|
    ensures SetAttrs(attrs, parts[i..])
         == SetAttrs(match AttrOf(parts[i]) case Some((k, v)) => Put(attrs, k, v) case None => attrs, parts[i + 1..])
  {
    assert parts[i..][1..] == parts[i + 1..];
  }

  /** The rule once its attribute parts are read into `attrs`. */
  lemma ParseFromAttrs(pattern: string, parts: seq<string>, attrs: Dict<string>, key: string, compiles: Compiles)
    requires parts == Split(pattern, Sep) && compiles(Translate(parts[0])) && SetAttrs([], parts[1..]) == attrs
    ensures ParsePatternSpec(pattern, key, compiles) == PatternOf(parts[0], Translate(parts[0]), attrs, key)
  {
  }

  /** A rule without attributes: its value, the translated regex, confidence 100, no version. */
  lemma ParsePlain(pattern: string, key: string, compiles: Compiles)
    requires !Contains(pattern, Sep) && compiles(Translate(pattern))
    ensures ParsePatternSpec(pattern, key, compiles) == Success(Pattern(pattern, Compiled(Translate(pattern)), 100, "", key))
  {
    SplitFree(pattern, Sep);
  }

  /** A value free of the separator, followed by one attribute part. */
  lemma SplitWithAttr(value: string, part: string)
    requires !Contains(value, Sep) && !Contains(part, Sep)
    ensures Split(value + Sep + part, Sep) == [value, part]
  {
    PairSepFirst(value, part, Sep);
    SplitCons(value, part, Sep);
    SplitFree(part, Sep);
  }

  lemma AttrOfNamed(name: string, v: string)
    requires ':' !in name
    ensures AttrOf(name + ":" + v) == Some((name, v))
  {
    var part := name + ":" + v;
    assert part == name + [':'] + v;
    FirstOccurrence(name, ':', v);
    assert part[..|name|] == name && part[|name| + 1..] == v;
  }

  /** The attribute parts of a formatted rule, one per attribute. */
  lemma SplitFormatted(value: string, vpart: string, cpart: string)
    requires !Contains(value, Sep) && !Contains(vpart, Sep) && !Contains(cpart, Sep)
    ensures Split(value + Sep + vpart + Sep + cpart, Sep) == [value, vpart, cpart]
  {
    PairSepFirst(value, vpart + Sep + cpart, Sep);
    assert value + Sep + vpart + Sep + cpart == value + Sep + (vpart + Sep + cpart);
    SplitCons(value, vpart + Sep + cpart, Sep);
    SplitWithAttr(vpart, cpart);
  }

  /** `name:` followed by a separator-free text is a separator-free part. */
  lemma AttrPartFree(name: string, text: string)
    requires !Contains(text, Sep) && '\\' !in name && ':' in name
    requires name[|name| - 1] == ':'
    ensures !Contains(name + text, Sep)
  {
    LacksFirstChar(name, Sep);
    PairSepConcat(name, text, Sep);
  }

  /** `name:text` assigns `text` to `name`. */
  lemma OneAttr(attrs: Dict<string>, name: string, text: string, rest: seq<string>)
    requires ':' !in name
    ensures SetAttrs(attrs, [name + ":" + text] + rest) == SetAttrs(Put(attrs, name, text), rest)
    ensures rest == [] ==> SetAttrs(attrs, [name + ":" + text]) == Put(attrs, name, text)
  {
    AttrOfNamed(name, text);
    SetAttrsCons(attrs, name + ":" + text, rest, name, text);
    assert [name + ":" + text] + [] == [name + ":" + text];
  }

  /**
   * The rule syntax of the database, written out and read back: a value,
   * a version template and a confidence come back as they were written.
   */
  lemma ParseFormatted(value: string, version: string, confidence: int, key: string, compiles: Compiles)
    requires !Contains(value, Sep) && !Contains(version, Sep) && compiles(Translate(value))
    ensures ParsePatternSpec(value + Sep + ("version" + ":" + version) + Sep + ("confidence" + ":" + IntToString(confidence)), key, compiles)
         == Success(Pattern(value, Compiled(Translate(value)), confidence, version, key))
  {
    var n := IntToString(confidence);
    AttrPartFree("version" + ":", version);
    LacksFirstChar("confidence" + ":" + n, Sep);
    SplitFormatted(value, "version" + ":" + version, "confidence" + ":" + n);
    FormattedParts(value, Translate(value), version, confidence, key, compiles);
  }

  lemma FormattedParts(value: string, regex: string, version: string, confidence: int, key: string, compiles: Compiles)
    requires compiles(regex)
    ensures FromParts(value, regex, ["version" + ":" + version, "confidence" + ":" + IntToString(confidence)], key, compiles)
         == Success(Pattern(value, Compiled(regex), confidence, version, key))
  {
    var n := IntToString(confidence);
    var parts := ["version" + ":" + version, "confidence" + ":" + n];
    var attrs := [("version", version), ("confidence", n)];
    TwoAttrs("version", version, "confidence", n);
    FromPartsAttrs(value, regex, parts, attrs, key, compiles);
    ParseIntRoundTrip(confidence);
    VersionConfidencePattern(value, regex, version, n, confidence, key);
  }

  /** Once the attribute parts are read into `attrs`, the rule is the pattern read from `attrs`. */
  lemma FromPartsAttrs(value: string, regex: string, parts: seq<string>, attrs: Dict<string>, key: string, compiles: Compiles)
    requires compiles(regex) && SetAttrs([], parts) == attrs
    ensures FromParts(value, regex, parts, key, compiles) == PatternOf(value, regex, attrs, key)
  {
  }

  /** Two attribute parts with different names. */
  lemma TwoAttrs(name1: string, text1: string, name2: string, text2: string)
    requires ':' !in name1 && ':' !in name2 && name1 != name2
    ensures SetAttrs([], [name1 + ":" + text1, name2 + ":" + text2]) == [(name1, text1), (name2, text2)]
  {
    OneAttr([], name1, text1, [name2 + ":" + text2]);
    OneAttr([(name1, text1)], name2, text2, []);
    assert [name1 + ":" + text1, name2 + ":" + text2] == [name1 + ":" + text1] + [name2 + ":" + text2];
  }

  lemma VersionConfidencePattern(value: string, regex: string, version: string, text: string, n: int, key: string)
    requires ParseInt(text) == Some(n)
    ensures PatternOf(value, regex, [("version", version), ("confidence", text)], key) == Success(Pattern(value, Compiled(regex), n, version, key))
  {
    var d := [("version", version), ("confidence", text)];
    assert d[1..] == [("confidence", text)];
    assert Get(d, "confidence") == Some(text);
    assert Get(d, "version") == Some(version);
    assert Get(d, "value") == None && Get(d, "regex") == None;
  }

  /** A value with only a confidence attribute. */
  lemma ParseConfidence(value: string, confidence: int, key: string, compiles: Compiles)
    requires !Contains(value, Sep) && compiles(Translate(value))
    ensures ParsePatternSpec(value + Sep + ("confidence" + ":" + IntToString(confidence)), key, compiles)
         == Success(Pattern(value, Compiled(Translate(value)), confidence, "", key))
  {
    LacksFirstChar("confidence" + ":" + IntToString(confidence), Sep);
    SplitWithAttr(value, "confidence" + ":" + IntToString(confidence));
    ParseIntRoundTrip(confidence);
    ConfidenceParts(value, Translate(value), IntToString(confidence), confidence, key, compiles);
  }

  lemma ConfidenceParts(value: string, regex: string, text: string, n: int, key: string, compiles: Compiles)
    requires compiles(regex) && ParseInt(text) == Some(n)
    ensures FromParts(value, regex, ["confidence" + ":" + text], key, compiles)
         == Success(Pattern(value, Compiled(regex), n, "", key))
  {
    OnlyAttr("confidence", text);
    FromPartsAttrs(value, regex, ["confidence" + ":" + text], [("confidence", text)], key, compiles);
    ConfidencePattern(value, regex, text, n, key);
  }

  /** A single `name:text` part assigns `text` to `name` and nothing else. */
  lemma OnlyAttr(name: string, text: string)
    requires ':' !in name
    ensures SetAttrs([], [name + ":" + text]) == [(name, text)]
  {
    OneAttr([], name, text, []);
    assert Put([], name, text) == [(name, text)];
  }

  lemma ConfidencePattern(value: string, regex: string, text: string, n: int, key: string)
    requires ParseInt(text) == Some(n)
    ensures PatternOf(value, regex, [("confidence", text)], key) == Success(Pattern(value, Compiled(regex), n, "", key))
  {
  }

  /** A confidence that `int()` rejects fails the rule, after the regex compiled. */
  lemma ParseBadConfidence(value: string, text: string, key: string, compiles: Compiles)
    requires !Contains(value, Sep) && !Contains(text, Sep) && compiles(Translate(value))
    requires ParseInt(text).None?
    ensures ParsePatternSpec(value + Sep + ("confidence" + ":" + text), key, compiles) == Failure(InvalidConfidence(text))
  {
    var part := "confidence" + ":" + text;
    assert ParsePatternSpec(value + Sep + part, key, compiles) == FromParts(value, Translate(value), [part], key, compiles) by {
      OneAttrRule(value, "confidence", text, key, compiles);
    }
    assert FromParts(value, Translate(value), [part], key, compiles) == Failure(InvalidConfidence(text)) by {
      BadConfidenceParts(value, Translate(value), text, key, compiles);
    }
  }

  /** A rule made of a value and one `name:text` attribute part. */
  lemma OneAttrRule(value: string, name: string, text: string, key: string, compiles: Compiles)
    requires !Contains(value, Sep) && !Contains(text, Sep) && '\\' !in name && ':' !in name
    ensures ParsePatternSpec(value + Sep + (name + ":" + text), key, compiles)
         == FromParts(value, Translate(value), [name + ":" + text], key, compiles)
  {
    var part := name + ":" + text;
    AttrPartFree(name + ":", text);
    SplitWithAttr(value, part);
    assert [value, part][1..] == [part];
  }

  lemma BadConfidenceParts(value: string, regex: string, text: string, key: string, compiles: Compiles)
    requires compiles(regex) && ParseInt(text).None?
    ensures FromParts(value, regex, ["confidence" + ":" + text], key, compiles) == Failure(InvalidConfidence(text))
  {
    OnlyAttr("confidence", text);
    FromPartsAttrs(value, regex, ["confidence" + ":" + text], [("confidence", text)], key, compiles);
    assert Get([("confidence", text)], "confidence") == Some(text);
  }

  /** A `regex:` attribute leaves text where the compiled regex would be. */
  lemma ParseRegexAttr(value: string, text: string, key: string, compiles: Compiles)
    requires !Contains(value, Sep) && !Contains(text, Sep) && compiles(Translate(value))
    ensures ParsePatternSpec(value + Sep + ("regex" + ":" + text), key, compiles) == Success(Pattern(value, Uncompiled(text), 100, "", key))
  {
    var part := "regex" + ":" + text;
    assert ParsePatternSpec(value + Sep + part, key, compiles) == FromParts(value, Translate(value), [part], key, compiles) by {
      OneAttrRule(value, "regex", text, key, compiles);
    }
    assert FromParts(value, Translate(value), [part], key, compiles) == Success(Pattern(value, Uncompiled(text), 100, "", key)) by {
      RegexAttrParts(value, Translate(value), text, key, compiles);
    }
  }

  lemma RegexAttrParts(value: string, regex: string, text: string, key: string, compiles: Compiles)
    requires compiles(regex)
    ensures FromParts(value, regex, ["regex" + ":" + text], key, compiles) == Success(Pattern(value, Uncompiled(text), 100, "", key))
  {
    OnlyAttr("regex", text);
    FromPartsAttrs(value, regex, ["regex" + ":" + text], [("regex", text)], key, compiles);
    assert Get([("regex", text)], "regex") == Some(text);
  }

  /** The translation changes nothing in a value without `/` or `[^]`, and rewrites the JavaScript idiom `[^]`. */
  lemma TranslateExamples(value: string)
    requires !Contains(value, "/") && !Contains(value, "[^]")
    ensures Translate(value) == value
    ensures Translate("[^]") == "."
  {
    ReplaceAbsent(value, "/", "\\/");
    ReplaceAbsent(value, "[^]", ".");
    LacksFirstChar("[^]", "/");
    ReplaceAbsent("[^]", "/", "\\/");
    ReplaceWhole("[^]", ".");
  }

  // ---------------------------------------------------------------------
  // _transform_patterns

  /** Python truthiness of a pattern field: `not patterns`. */
  predicate Falsy(p: RawPatterns) {
    p.Absent? || p == Str("") || p == Arr([]) || p == Obj([])
  }

  /** A rule or a list of rules is wrapped as the single entry `"main"`. */
  function AsEntries(p: RawPatterns): Dict<RawEntry> {
    match p
    case Absent => []
    case Str(s) => [("main", One(s))]
    case Arr(rules) => [("main", Many(rules))]
    case Obj(entries) => entries
  }

  /** `to_list`. */
  function ToList(e: RawEntry): seq<string> {
    match e
    case One(rule) => [rule]
    case Many(rules) => rules
  }

  function NormKey(key: string, caseSensitive: bool): string {
    if caseSensitive then key else Lower(key)
  }

  /** `[_parse_pattern(ptrn, key) for ptrn in rules]`: the first failing rule aborts. */
  function ParseList(rules: seq<string>, key: string, compiles: Compiles): Result<seq<Pattern>, Error>
    decreases |rules|
  {
    if rules == [] then Success([])
    else
      var p :- ParsePatternSpec(rules[0], key, compiles);
      var ps :- ParseList(rules[1..], key, compiles);
      Success([p] + ps)
  }

  /** The list succeeds exactly when every rule parses, and then holds each rule's pattern in order. */
  lemma {:induction false} ParseListMeaning(rules: seq<string>, key: string, compiles: Compiles)
    ensures var r := ParseList(rules, key, compiles);
      && (r.Success? <==> forall i :: 0 <= i < |rules| ==> ParsePatternSpec(rules[i], key, compiles).Success?)
      && (r.Success? ==> |r.value| == |rules|)
      && (r.Success? ==> forall i :: 0 <= i < |rules| ==> Success(r.value[i]) == ParsePatternSpec(rules[i], key, compiles))
    decreases |rules|
  {
    if rules != [] {
      var tail := rules[1..];
      ParseListMeaning(tail, key, compiles);
      var head := ParsePatternSpec(rules[0], key, compiles);
      var rest := ParseList(tail, key, compiles);
      assert ParseList(rules, key, compiles)
          == if head.Failure? then Failure(head.error)
             else if rest.Failure? then Failure(rest.error)
             else Success([head.value] + rest.value);
      forall i | 1 <= i < |rules| ensures rules[i] == tail[i - 1] {
      }
      if head.Success? && rest.Success? {
        var r := [head.value] + rest.value;
        forall i | 0 <= i < |rules| ensures Success(r[i]) == ParsePatternSpec(rules[i], key, compiles) {
          if i > 0 {
            assert r[i] == rest.value[i - 1];
          }
        }
      }
    }
  }

  /** The `for key in patterns` loop: each entry's list stored under its normalised key. */
  function ParseEntries(parsed: Dict<seq<Pattern>>, entries: Dict<RawEntry>, caseSensitive: bool, compiles: Compiles)
    : Result<Dict<seq<Pattern>>, Error>
    decreases |entries|
  {
    if entries == [] then Success(parsed)
    else
      var ps :- ParseList(ToList(entries[0].1), entries[0].0, compiles);
      ParseEntries(Put(parsed, NormKey(entries[0].0, caseSensitive), ps), entries[1..], caseSensitive, compiles)
  }

  /** `_transform_patterns(patterns, case_sensitive)`. */
  function TransformSpec(patterns: RawPatterns, caseSensitive: bool, compiles: Compiles): (r: Result<PatternSet, Error>)
    ensures Falsy(patterns) ==> r == Success(Flat([]))
  {
    if Falsy(patterns) then Success(Flat([]))
    else
      var parsed :- ParseEntries([], AsEntries(patterns), caseSensitive, compiles);
      match Get(parsed, "main")
      case Some(ps) => Success(Flat(ps))
      case None => Success(Keyed(parsed))
  }

  /** One iteration of the key loop, read off the fold. */
  lemma ParseEntriesStep(parsed: Dict<seq<Pattern>>, entries: Dict<RawEntry>, i: nat, caseSensitive: bool, compiles: Compiles)
    requires i < |entries|
    ensures var list := ParseList(ToList(entries[i].1), entries[i].0, compiles);
      ParseEntries(parsed, entries[i..], caseSensitive, compiles)
         == if list.Failure? then Failure(list.error)
            else ParseEntries(Put(parsed, NormKey(entries[i].0, caseSensitive), list.value), entries[i + 1..], caseSensitive, compiles)
  {
    assert entries[i..][1..] == entries[i + 1..];
  }

  /** The field once the key loop has run to the end. */
  lemma TransformOfParsed(patterns: RawPatterns, caseSensitive: bool, compiles: Compiles, parsed: Dict<seq<Pattern>>)
    requires !Falsy(patterns)
    requires ParseEntries([], AsEntries(patterns), caseSensitive, compiles) == Success(parsed)
    ensures TransformSpec(patterns, caseSensitive, compiles)
         == Success(if HasKey(parsed, "main") then Flat(Get(parsed, "main").value) else Keyed(parsed))
  {
  }

  /** `_transform_patterns`, with its loop over the keys of the field. */
  method TransformPatterns(patterns: RawPatterns, caseSensitive: bool, compiles: Compiles) returns (r: Result<PatternSet, Error>)
    ensures r == TransformSpec(patterns, caseSensitive, compiles)
  {
    if Falsy(patterns) {
      return Success(Flat([]));
    }
    var entries := AsEntries(patterns);
    var parsed: Dict<seq<Pattern>> := [];
    var result := ParseEntries([], entries, caseSensitive, compiles);
    for i := 0 to |entries|
      invariant ParseEntries(parsed, entries[i..], caseSensitive, compiles) == result
    {
      ParseEntriesStep(parsed, entries, i, caseSensitive, compiles);
      var (key, rules) := entries[i];
      var ps := ParseList(ToList(rules), key, compiles);
      if ps.Failure? {
        return Failure(ps.error);
      }
      parsed := Put(parsed, if caseSensitive then key else Lower(key), ps.value);
    }
    assert entries[|entries|..] == [];
    TransformOfParsed(patterns, caseSensitive, compiles, parsed);
    r := Success(if HasKey(parsed, "main") then Flat(Get(parsed, "main").value) else Keyed(parsed));
  }

  /** An independent reading of the loop: the last entry whose normalised key is `name`. */
  function LastNamed(entries: Dict<RawEntry>, name: string, caseSensitive: bool): Option<(string, RawEntry)>
    decreases |entries|
  {
    if entries == [] then None
    else
      var later := LastNamed(entries[1..], name, caseSensitive);
      if later.Some? then later
      else if NormKey(entries[0].0, caseSensitive) == name then Some(entries[0])
      else None
  }

  /** The loop fails exactly when some rule of some entry fails to parse. */
  lemma {:induction false} ParseEntriesSucceeds(parsed: Dict<seq<Pattern>>, entries: Dict<RawEntry>, caseSensitive: bool, compiles: Compiles)
    ensures ParseEntries(parsed, entries, caseSensitive, compiles).Success?
        <==> forall i :: 0 <= i < |entries| ==> ParseList(ToList(entries[i].1), entries[i].0, compiles).Success?
    decreases |entries|
  {
    if entries != [] {
      var ps := ParseList(ToList(entries[0].1), entries[0].0, compiles);
      if ps.Success? {
        ParseEntriesSucceeds(Put(parsed, NormKey(entries[0].0, caseSensitive), ps.value), entries[1..], caseSensitive, compiles);
        assert forall i :: 1 <= i < |entries| ==> entries[i] == entries[1..][i - 1];
      }
    }
  }

  /**
   * Each normalised key holds the patterns of the LAST raw entry that
   * normalises to it (earlier ones are overwritten in place), parsed with
   * that entry's own, unnormalised key.
   */
  lemma {:induction false} ParseEntriesLookup(parsed: Dict<seq<Pattern>>, entries: Dict<RawEntry>, caseSensitive: bool, compiles: Compiles, name: string)
    requires ParseEntries(parsed, entries, caseSensitive, compiles).Success?
    ensures var d := ParseEntries(parsed, entries, caseSensitive, compiles).value;
      match LastNamed(entries, name, caseSensitive)
      case None => Get(d, name) == Get(parsed, name)
      case Some((key, e)) => Get(d, name).Some? && ParseList(ToList(e), key, compiles) == Success(Get(d, name).value)
    decreases |entries|
  {
    if entries != [] {
      var ps := ParseList(ToList(entries[0].1), entries[0].0, compiles).value;
      var next := Put(parsed, NormKey(entries[0].0, caseSensitive), ps);
      ParseEntriesLookup(next, entries[1..], caseSensitive, compiles, name);
      GetPut(parsed, NormKey(entries[0].0, caseSensitive), ps, name);
    }
  }

  /** The loop keeps keys distinct, and, when case-insensitive, lower-case. */
  lemma {:induction false} ParseEntriesKeys(parsed: Dict<seq<Pattern>>, entries: Dict<RawEntry>, caseSensitive: bool, compiles: Compiles)
    requires ParseEntries(parsed, entries, caseSensitive, compiles).Success?
    requires DistinctKeys(parsed)
    requires !caseSensitive ==> forall i :: 0 <= i < |parsed| ==> IsLower(parsed[i].0)
    ensures var d := ParseEntries(parsed, entries, caseSensitive, compiles).value;
      DistinctKeys(d) && (!caseSensitive ==> forall i :: 0 <= i < |d| ==> IsLower(d[i].0))
    decreases |entries|
  {
    if entries != [] {
      var k := NormKey(entries[0].0, caseSensitive);
      var ps := ParseList(ToList(entries[0].1), entries[0].0, compiles).value;
      var next := Put(parsed, k, ps);
      PutKeepsDistinct(parsed, k, ps);
      if !caseSensitive {
        LowerIsLower(entries[0].0);
        forall i | 0 <= i < |next| ensures IsLower(next[i].0) {
          if i >= |parsed| {
            assert next == parsed + [(k, ps)];
          }
        }
      }
      ParseEntriesKeys(next, entries[1..], caseSensitive, compiles);
    }
  }

  /** A one-rule list holds that rule's pattern, or fails with it. */
  lemma ParseListOne(rule: string, key: string, compiles: Compiles)
    ensures ParseList([rule], key, compiles)
         == match ParsePatternSpec(rule, key, compiles)
            case Success(p) => Success([p])
            case Failure(e) => Failure(e)
  {
    assert [rule][1..] == [];
    assert ParseList([], key, compiles) == Success([]);
    match ParsePatternSpec(rule, key, compiles)
    case Success(p) => assert [p] + [] == [p];
    case Failure(e) =>
  }

  /** A field that is one `"main"` entry is the plain list of that entry's patterns. */
  lemma TransformMainOnly(patterns: RawPatterns, e: RawEntry, caseSensitive: bool, compiles: Compiles)
    requires !Falsy(patterns) && AsEntries(patterns) == [("main", e)]
    ensures TransformSpec(patterns, caseSensitive, compiles)
         == match ParseList(ToList(e), "main", compiles)
            case Success(ps) => Success(Flat(ps))
            case Failure(err) => Failure(err)
  {
    var entries := AsEntries(patterns);
    LowerOfLower("main");
    assert NormKey("main", caseSensitive) == "main";
    assert entries[1..] == [];
    match ParseList(ToList(e), "main", compiles)
    case Success(ps) =>
      assert Put([], "main", ps) == [("main", ps)];
      assert ParseEntries([], entries, caseSensitive, compiles) == Success([("main", ps)]);
      assert Get([("main", ps)], "main") == Some(ps);
    case Failure(err) =>
  }

  /** A single rule becomes a one-pattern list whose key is `"main"`. */
  lemma TransformRule(rule: string, caseSensitive: bool, compiles: Compiles)
    requires rule != ""
    ensures TransformSpec(Str(rule), caseSensitive, compiles)
         == match ParsePatternSpec(rule, "main", compiles)
            case Success(p) => Success(Flat([p]))
            case Failure(e) => Failure(e)
  {
    TransformMainOnly(Str(rule), One(rule), caseSensitive, compiles);
    ParseListOne(rule, "main", compiles);
  }

  /** A list of rules becomes the list of their patterns, each keyed `"main"`. */
  lemma TransformRules(rules: seq<string>, caseSensitive: bool, compiles: Compiles)
    requires rules != []
    ensures TransformSpec(Arr(rules), caseSensitive, compiles)
         == match ParseList(rules, "main", compiles)
            case Success(ps) => Success(Flat(ps))
            case Failure(e) => Failure(e)
  {
    TransformMainOnly(Arr(rules), Many(rules), caseSensitive, compiles);
  }

  /**
   * A mapping in which no key normalises to `"main"` is kept keyed: with
   * distinct keys (lower-case, unless case-sensitive), each holding the
   * patterns of the last entry that normalises to it.
   */
  lemma TransformMapping(entries: Dict<RawEntry>, caseSensitive: bool, compiles: Compiles)
    requires entries != []
    requires forall i :: 0 <= i < |entries| ==> NormKey(entries[i].0, caseSensitive) != "main"
    requires TransformSpec(Obj(entries), caseSensitive, compiles).Success?
    ensures var r := TransformSpec(Obj(entries), caseSensitive, compiles).value;
      && r.Keyed?
      && DistinctKeys(r.entries)
      && (!caseSensitive ==> forall i :: 0 <= i < |r.entries| ==> IsLower(r.entries[i].0))
      && forall name :: match LastNamed(entries, name, caseSensitive)
           case None => !HasKey(r.entries, name)
           case Some((key, e)) => HasKey(r.entries, name) && ParseList(ToList(e), key, compiles) == Success(Get(r.entries, name).value)
  {
    var d := ParseEntries([], entries, caseSensitive, compiles).value;
    ParseEntriesKeys([], entries, caseSensitive, compiles);
    forall name ensures match LastNamed(entries, name, caseSensitive)
           case None => !HasKey(d, name)
           case Some((key, e)) => HasKey(d, name) && ParseList(ToList(e), key, compiles) == Success(Get(d, name).value)
    {
      ParseEntriesLookup([], entries, caseSensitive, compiles, name);
    }
    LastNamedMain(entries, caseSensitive);
    ParseEntriesLookup([], entries, caseSensitive, compiles, "main");
  }

  lemma {:induction false} LastNamedMain(entries: Dict<RawEntry>, caseSensitive: bool)
    requires forall i :: 0 <= i < |entries| ==> NormKey(entries[i].0, caseSensitive) != "main"
    ensures LastNamed(entries, "main", caseSensitive).None?
    decreases |entries|
  {
    if entries != [] {
      assert forall i :: 1 <= i < |entries| ==> entries[i] == entries[1..][i - 1];
      LastNamedMain(entries[1..], caseSensitive);
    }
  }

  /** Any entry that normalises to `"main"` (an upper-case `Main` too, when case-insensitive) turns the field into a plain list. */
  lemma TransformMainKey(entries: Dict<RawEntry>, caseSensitive: bool, compiles: Compiles, j: nat)
    requires j < |entries| && NormKey(entries[j].0, caseSensitive) == "main"
    requires TransformSpec(Obj(entries), caseSensitive, compiles).Success?
    ensures TransformSpec(Obj(entries), caseSensitive, compiles).value.Flat?
  {
    LastNamedFound(entries, caseSensitive, j);
    ParseEntriesLookup([], entries, caseSensitive, compiles, "main");
  }

  lemma {:induction false} LastNamedFound(entries: Dict<RawEntry>, caseSensitive: bool, j: nat)
    requires j < |entries|
    ensures LastNamed(entries, NormKey(entries[j].0, caseSensitive), caseSensitive).Some?
    decreases |entries|
  {
    if j > 0 {
      assert entries[j] == entries[1..][j - 1];
      LastNamedFound(entries[1..], caseSensitive, j - 1);
    }
  }

  // ---------------------------------------------------------------------
  // load_categories, load_apps

  /** The dictionary comprehension of `load_categories`, continuing from `acc`. */
  function CategoriesFrom(acc: Dict<Category>, raw: Dict<RawCategory>): (r: Dict<Category>)
    requires forall i :: 0 <= i < |acc| ==> acc[i].1.id == acc[i].0
    ensures forall i :: 0 <= i < |r| ==> r[i].1.id == r[i].0
    decreases |raw|
  {
    if raw == [] then acc
    else
      var (id, c) := raw[0];
      var next := Put(acc, id, Category(id, c.name, c.priority));
      assert forall i :: 0 <= i < |next| ==> next[i].1.id == next[i].0 by {
        GetPutAll(acc, id, Category(id, c.name, c.priority));
        PutValues(acc, id, Category(id, c.name, c.priority));
      }
      CategoriesFrom(next, raw[1..])
  }

  /** `Put` stores `v` under `k` and leaves every other entry as it was. */
  lemma {:induction false} PutValues<V>(d: Dict<V>, k: string, v: V)
    ensures forall i :: 0 <= i < |Put(d, k, v)| ==> Put(d, k, v)[i] == (k, v) || (i < |d| && Put(d, k, v)[i] == d[i])
  {
    if d != [] && d[0].0 != k {
      PutValues(d[1..], k, v);
      assert Put(d, k, v) == [d[0]] + Put(d[1..], k, v);
    }
  }

  /** `load_categories`: each category keyed by its id. */
  function LoadCategories(raw: Dict<RawCategory>): (r: Dict<Category>)
    ensures forall i :: 0 <= i < |r| ==> r[i].1.id == r[i].0
  {
    CategoriesFrom([], raw)
  }

  /** Each id of the raw section is a key of the result, holding that entry's name and priority. */
  lemma {:induction false} CategoriesLookup(acc: Dict<Category>, raw: Dict<RawCategory>, id: string)
    requires forall i :: 0 <= i < |acc| ==> acc[i].1.id == acc[i].0
    requires DistinctKeys(raw)
    ensures Get(CategoriesFrom(acc, raw), id)
         == match Get(raw, id) case Some(c) => Some(Category(id, c.name, c.priority)) case None => Get(acc, id)
    decreases |raw|
  {
    if raw != [] {
      var (k, c) := raw[0];
      var next := Put(acc, k, Category(k, c.name, c.priority));
      assert forall i :: 0 <= i < |next| ==> next[i].1.id == next[i].0 by {
        PutValues(acc, k, Category(k, c.name, c.priority));
      }
      assert DistinctKeys(raw[1..]);
      CategoriesLookup(next, raw[1..], id);
      GetPut(acc, k, Category(k, c.name, c.priority), id);
      if k == id {
        assert !HasKey(raw[1..], id);
      }
    }
  }

  /** `[categories[str(c)] for c in techno.get("cats", [])]`: the first unknown id aborts. */
  function CategoriesOf(cats: seq<int>, categories: Dict<Category>): Result<seq<Category>, Error>
    decreases |cats|
  {
    if cats == [] then Success([])
    else
      var id := IntToString(cats[0]);
      match Get(categories, id)
      case None => Failure(MissingCategory(id))
      case Some(c) =>
        var rest :- CategoriesOf(cats[1..], categories);
        Success([c] + rest)
  }

  /** The lookup succeeds exactly when every id is a loaded category, and then lists them in order. */
  lemma {:induction false} CategoriesOfMeaning(cats: seq<int>, categories: Dict<Category>)
    ensures var r := CategoriesOf(cats, categories);
      && (r.Success? <==> forall i :: 0 <= i < |cats| ==> HasKey(categories, IntToString(cats[i])))
      && (r.Success? ==> |r.value| == |cats|)
      && (r.Success? ==> forall i :: 0 <= i < |cats| ==> Get(categories, IntToString(cats[i])) == Some(r.value[i]))
    decreases |cats|
  {
    if cats != [] {
      CategoriesOfMeaning(cats[1..], categories);
      assert forall i :: 1 <= i < |cats| ==> cats[i] == cats[1..][i - 1];
    }
  }

  /** `[Imply(name=pt.value, confidence=pt.confidence) for pt in ...]`; iterating a keyed field yields strings, which have no `value`. */
  function ImpliesOf(ps: PatternSet, technology: string): Result<seq<Imply>, Error> {
    match ps
    case Flat(pts) => Success(seq(|pts|, i requires 0 <= i < |pts| => Imply(pts[i].value, pts[i].confidence)))
    case Keyed(d) => if d == [] then Success([]) else Failure(RelationNotList(technology))
  }

  /** `[Exclude(name=pt.value) for pt in ...]`. */
  function ExcludesOf(ps: PatternSet, technology: string): Result<seq<Exclude>, Error> {
    match ps
    case Flat(pts) => Success(seq(|pts|, i requires 0 <= i < |pts| => Exclude(pts[i].value)))
    case Keyed(d) => if d == [] then Success([]) else Failure(RelationNotList(technology))
  }

  /** Keys a keyed pattern field may carry after loading: lower-case unless the field is `js`. */
  predicate KeysLower(ps: PatternSet) {
    ps.Keyed? ==> forall i :: 0 <= i < |ps.entries| ==> IsLower(ps.entries[i].0)
  }

  lemma TransformKeysLower(patterns: RawPatterns, compiles: Compiles)
    requires TransformSpec(patterns, false, compiles).Success?
    ensures KeysLower(TransformSpec(patterns, false, compiles).value)
  {
    if !Falsy(patterns) {
      ParseEntriesKeys([], AsEntries(patterns), false, compiles);
    }
  }

  /**
   * One technology of the comprehension in `load_apps`, its fields read
   * in the order the constructor call lists them.
   */
  function LoadTech(name: string, raw: RawTech, categories: Dict<Category>, compiles: Compiles): (r: Result<Technology, Error>)
    ensures r.Success? ==> r.value.name == name
    ensures CategoriesOf(raw.cats, categories).Failure? ==> r == Failure(CategoriesOf(raw.cats, categories).error)
    ensures r.Success? ==> CategoriesOf(raw.cats, categories) == Success(r.value.categories)
    ensures r.Success? ==>
      && TransformSpec(raw.url, false, compiles) == Success(r.value.url)
      && TransformSpec(raw.headers, false, compiles) == Success(r.value.headers)
      && TransformSpec(raw.cookies, false, compiles) == Success(r.value.cookies)
      && TransformSpec(raw.html, false, compiles) == Success(r.value.html)
      && TransformSpec(raw.meta, false, compiles) == Success(r.value.meta)
      && TransformSpec(raw.scripts, false, compiles) == Success(r.value.scripts)
      && TransformSpec(raw.js, true, compiles) == Success(r.value.js)
    ensures r.Success? ==>
      && TransformSpec(raw.implies, false, compiles).Success?
      && ImpliesOf(TransformSpec(raw.implies, false, compiles).value, name) == Success(r.value.implies)
      && TransformSpec(raw.excludes, false, compiles).Success?
      && ExcludesOf(TransformSpec(raw.excludes, false, compiles).value, name) == Success(r.value.excludes)
  {
    var cats :- CategoriesOf(raw.cats, categories);
    var url :- TransformSpec(raw.url, false, compiles);
    var headers :- TransformSpec(raw.headers, false, compiles);
    var cookies :- TransformSpec(raw.cookies, false, compiles);
    var html :- TransformSpec(raw.html, false, compiles);
    var meta :- TransformSpec(raw.meta, false, compiles);
    var scripts :- TransformSpec(raw.scripts, false, compiles);
    var js :- TransformSpec(raw.js, true, compiles);
    var impliesSet :- TransformSpec(raw.implies, false, compiles);
    var implies :- ImpliesOf(impliesSet, name);
    var excludesSet :- TransformSpec(raw.excludes, false, compiles);
    var excludes :- ExcludesOf(excludesSet, name);
    Success(Technology(name, cats, url, headers, cookies, html, meta, scripts, js, implies, excludes))
  }

  /**
   * A loaded technology: keyed fields other than `js` have lower-case
   * keys, and every category is one of the loaded categories.
   */
  lemma LoadTechShape(name: string, raw: RawTech, categories: Dict<Category>, compiles: Compiles)
    requires LoadTech(name, raw, categories, compiles).Success?
    ensures var t := LoadTech(name, raw, categories, compiles).value;
      && (forall f: Field :: f != Js ==> KeysLower(t.Patterns(f)))
      && (forall c :: c in t.categories ==> exists i :: 0 <= i < |categories| && categories[i].1 == c)
  {
    var t := LoadTech(name, raw, categories, compiles).value;
    FieldKeysLower(t, raw, compiles);
    CategoriesKnown(raw.cats, categories, t.categories);
  }

  lemma FieldKeysLower(t: Technology, raw: RawTech, compiles: Compiles)
    requires && TransformSpec(raw.url, false, compiles) == Success(t.url)
             && TransformSpec(raw.headers, false, compiles) == Success(t.headers)
             && TransformSpec(raw.cookies, false, compiles) == Success(t.cookies)
             && TransformSpec(raw.html, false, compiles) == Success(t.html)
             && TransformSpec(raw.meta, false, compiles) == Success(t.meta)
             && TransformSpec(raw.scripts, false, compiles) == Success(t.scripts)
    ensures forall f: Field :: f != Js ==> KeysLower(t.Patterns(f))
  {
    TransformKeysLower(raw.url, compiles);
    TransformKeysLower(raw.headers, compiles);
    TransformKeysLower(raw.cookies, compiles);
    TransformKeysLower(raw.html, compiles);
    TransformKeysLower(raw.meta, compiles);
    TransformKeysLower(raw.scripts, compiles);
  }

  /** Every category a technology lists is one of the loaded categories. */
  lemma CategoriesKnown(cats: seq<int>, categories: Dict<Category>, cs: seq<Category>)
    requires CategoriesOf(cats, categories) == Success(cs)
    ensures forall c :: c in cs ==> exists i :: 0 <= i < |categories| && categories[i].1 == c
  {
    CategoriesOfMeaning(cats, categories);
    forall c | c in cs ensures exists i :: 0 <= i < |categories| && categories[i].1 == c {
      var j :| 0 <= j < |cs| && cs[j] == c;
      assert Get(categories, IntToString(cats[j])) == Some(c);
    }
  }

  /** Every technology is stored under its own name. */
  predicate NamedByKey(d: Dict<Technology>) {
    forall i :: 0 <= i < |d| ==> d[i].1.name == d[i].0
  }

  /** The technologies comprehension of `load_apps`, continuing from `acc`; the first failure aborts. */
  function LoadTechs(acc: Dict<Technology>, raw: Dict<RawTech>, categories: Dict<Category>, compiles: Compiles)
    : (r: Result<Dict<Technology>, Error>)
    requires NamedByKey(acc)
    ensures r.Success? ==> NamedByKey(r.value)
    ensures r.Success? ==> forall name :: HasKey(r.value, name) <==> HasKey(acc, name) || HasKey(raw, name)
    decreases |raw|
  {
    if raw == [] then Success(acc)
    else
      var (name, t) := raw[0];
      var tech :- LoadTech(name, t, categories, compiles);
      var next := Put(acc, name, tech);
      PutValues(acc, name, tech);
      GetPutAll(acc, name, tech);
      var rest :- LoadTechs(next, raw[1..], categories, compiles);
      assert forall n :: HasKey(raw, n) <==> n == name || HasKey(raw[1..], n) by {
        forall n ensures HasKey(raw, n) <==> n == name || HasKey(raw[1..], n) {
          if HasKey(raw, n) && n != name {
            var i :| 0 <= i < |raw| && raw[i].0 == n;
            assert raw[1..][i - 1].0 == n;
          }
          if HasKey(raw[1..], n) {
            var i :| 0 <= i < |raw[1..]| && raw[1..][i].0 == n;
            assert raw[i + 1].0 == n;
          }
          assert raw[0].0 == name;
        }
      }
      assert forall n :: HasKey(next, n) <==> n == name || HasKey(acc, n) by {
        forall n ensures HasKey(next, n) <==> n == name || HasKey(acc, n) {
          assert Get(next, n).Some? <==> n == name || Get(acc, n).Some?;
        }
      }
      Success(rest)
  }

  /** The comprehension succeeds exactly when every technology entry loads. */
  lemma {:induction false} LoadTechsSucceeds(acc: Dict<Technology>, raw: Dict<RawTech>, categories: Dict<Category>, compiles: Compiles)
    requires NamedByKey(acc)
    ensures LoadTechs(acc, raw, categories, compiles).Success? <==>
            forall i :: 0 <= i < |raw| ==> LoadTech(raw[i].0, raw[i].1, categories, compiles).Success?
    decreases |raw|
  {
    if raw != [] {
      var (name, t) := raw[0];
      var tech := LoadTech(name, t, categories, compiles);
      if tech.Success? {
        var next := Put(acc, name, tech.value);
        PutValues(acc, name, tech.value);
        assert LoadTechs(acc, raw, categories, compiles) == LoadTechs(next, raw[1..], categories, compiles);
        LoadTechsSucceeds(next, raw[1..], categories, compiles);
        assert forall i :: 1 <= i < |raw| ==> raw[i] == raw[1..][i - 1];
      } else {
        assert LoadTechs(acc, raw, categories, compiles).Failure?;
      }
    }
  }

  /**
   * Each name of the technologies section holds the technology loaded from
   * its own entry, and a name outside the section keeps what `acc` held.
   */
  lemma {:induction false} LoadTechsLookup(acc: Dict<Technology>, raw: Dict<RawTech>, categories: Dict<Category>, compiles: Compiles)
    requires NamedByKey(acc) && DistinctKeys(raw)
    ensures var r := LoadTechs(acc, raw, categories, compiles);
      r.Success? ==>
        && (forall i :: 0 <= i < |raw| ==>
              && LoadTech(raw[i].0, raw[i].1, categories, compiles).Success?
              && Get(r.value, raw[i].0) == Some(LoadTech(raw[i].0, raw[i].1, categories, compiles).value))
        && (forall n :: !HasKey(raw, n) ==> Get(r.value, n) == Get(acc, n))
    decreases |raw|
  {
    if raw != [] {
      var (name, t) := raw[0];
      var tech := LoadTech(name, t, categories, compiles);
      if tech.Success? {
        var next := Put(acc, name, tech.value);
        PutValues(acc, name, tech.value);
        GetPutAll(acc, name, tech.value);
        var tail := raw[1..];
        DistinctTail(raw);
        LoadTechsLookup(next, tail, categories, compiles);
        var r := LoadTechs(acc, raw, categories, compiles);
        if r.Success? {
          assert r == LoadTechs(next, tail, categories, compiles);
          forall i | 0 <= i < |raw|
            ensures LoadTech(raw[i].0, raw[i].1, categories, compiles).Success?
            ensures Get(r.value, raw[i].0) == Some(LoadTech(raw[i].0, raw[i].1, categories, compiles).value)
          {
            if i > 0 {
              assert raw[i] == tail[i - 1];
            }
          }
        }
      }
    }
  }

  /** The tail of a dictionary with distinct keys has distinct keys, none of them the head's, and they are the other keys. */
  lemma DistinctTail<V>(d: Dict<V>)
    requires d != [] && DistinctKeys(d)
    ensures DistinctKeys(d[1..]) && !HasKey(d[1..], d[0].0)
    ensures forall n :: HasKey(d, n) <==> n == d[0].0 || HasKey(d[1..], n)
  {
    var tail := d[1..];
    forall a, b | 0 <= a < b < |tail| ensures tail[a].0 != tail[b].0 {
      assert tail[a] == d[a + 1] && tail[b] == d[b + 1];
    }
    forall j | 0 <= j < |tail| ensures tail[j].0 != d[0].0 {
      assert tail[j] == d[j + 1];
    }
    forall n ensures HasKey(d, n) <==> n == d[0].0 || HasKey(tail, n) {
      if HasKey(d, n) && n != d[0].0 {
        var i :| 0 <= i < |d| && d[i].0 == n;
        assert tail[i - 1].0 == n;
      }
      if HasKey(tail, n) {
        var j :| 0 <= j < |tail| && tail[j].0 == n;
        assert d[j + 1].0 == n;
      }
    }
  }

  /**
   * `load_apps`: the categories section is read first, then every
   * technology of the technologies section, in order.
   */
  function LoadApps(db: RawDb, compiles: Compiles): (r: Result<(Dict<Technology>, Dict<Category>), Error>)
    ensures db.categories.None? ==> r == Failure(MissingSection("categories"))
    ensures db.categories.Some? && db.technologies.None? ==> r == Failure(MissingSection("technologies"))
    ensures db.categories.Some? && db.technologies.Some? ==>
      var raw := db.technologies.value;
      var categories := LoadCategories(db.categories.value);
      && (r.Success? <==> forall i :: 0 <= i < |raw| ==> LoadTech(raw[i].0, raw[i].1, categories, compiles).Success?)
      && (r.Success? ==> r.value.1 == categories)
      && (r.Success? && DistinctKeys(raw) ==>
            forall i :: 0 <= i < |raw| ==> Get(r.value.0, raw[i].0) == Some(LoadTech(raw[i].0, raw[i].1, categories, compiles).value))
    ensures r.Success? ==> NamedByKey(r.value.0)
    ensures r.Success? ==> forall name :: HasKey(r.value.0, name) <==> HasKey(db.technologies.value, name)
    ensures r.Success? ==> forall i :: 0 <= i < |r.value.1| ==> r.value.1[i].1.id == r.value.1[i].0
  {
    if db.categories.None? then Failure(MissingSection("categories"))
    else
      var categories := LoadCategories(db.categories.value);
      if db.technologies.None? then Failure(MissingSection("technologies"))
      else
        var raw := db.technologies.value;
        LoadTechsSucceeds([], raw, categories, compiles);
        if DistinctKeys(raw) then (LoadTechsLookup([], raw, categories, compiles); LoadAppsOf(raw, categories, compiles))
        else LoadAppsOf(raw, categories, compiles)
  }

  /** The result of `load_apps` once both sections are present. */
  function LoadAppsOf(raw: Dict<RawTech>, categories: Dict<Category>, compiles: Compiles): Result<(Dict<Technology>, Dict<Category>), Error> {
    var techs :- LoadTechs([], raw, categories, compiles);
    Success((techs, categories))
  }

  /** An implied name with a confidence, in the rule syntax, loads as that relation. */
  lemma ImplyWithConfidence(name: string, confidence: int, compiles: Compiles)
    requires !Contains(name, Sep) && compiles(Translate(name))
    ensures var ps := TransformSpec(Str(name + Sep + ("confidence" + ":" + IntToString(confidence))), false, compiles);
      ps.Success? && ImpliesOf(ps.value, "") == Success([Imply(name, confidence)])
  {
    var rule := name + Sep + ("confidence" + ":" + IntToString(confidence));
    assert |rule| >= |Sep|;
    ParseConfidence(name, confidence, "main", compiles);
    TransformRule(rule, false, compiles);
    ImpliesOfOne(Pattern(name, Compiled(Translate(name)), confidence, "", "main"), "");
  }

  lemma ImpliesOfOne(p: Pattern, technology: string)
    ensures ImpliesOf(Flat([p]), technology) == Success([Imply(p.value, p.confidence)])
  {
    var r := ImpliesOf(Flat([p]), technology).value;
    assert ImpliesOf(Flat([p]), technology).Success?;
    assert |r| == 1 && r[0] == Imply(p.value, p.confidence);
    assert r == [Imply(p.value, p.confidence)];
  }

  lemma ExcludesOfOne(p: Pattern, technology: string)
    ensures ExcludesOf(Flat([p]), technology) == Success([Exclude(p.value)])
  {
    var r := ExcludesOf(Flat([p]), technology).value;
    assert ExcludesOf(Flat([p]), technology).Success?;
    assert |r| == 1 && r[0] == Exclude(p.value);
    assert r == [Exclude(p.value)];
  }

  /** A plain relation rule `X` implies `X` at confidence 100, or excludes `X`. */
  lemma PlainRelation(name: string, technology: string, compiles: Compiles)
    requires name != "" && !Contains(name, Sep) && compiles(Translate(name))
    ensures var ps := TransformSpec(Str(name), false, compiles);
      && ps.Success?
      && ImpliesOf(ps.value, technology) == Success([Imply(name, 100)])
      && ExcludesOf(ps.value, technology) == Success([Exclude(name)])
  {
    ParsePlain(name, "main", compiles);
    TransformRule(name, false, compiles);
    ImpliesOfOne(Pattern(name, Compiled(Translate(name)), 100, "", "main"), technology);
    ExcludesOfOne(Pattern(name, Compiled(Translate(name)), 100, "", "main"), technology);
  }
}
