/**
 * The records of the rule set and of the matching results, with the
 * equality and hashing the engine relies on.
 */
module Structs {
  import opened Wrappers
  import opened Dicts

  datatype Category = Category(id: string, name: string, priority: int)

  /** "Using the owner implies `name`", with the confidence ceiling to propagate. */
  datatype Imply = Imply(name: string, confidence: int)

  /** "The owner cannot be reported together with `name`." */
  datatype Exclude = Exclude(name: string)

  /**
   * A pattern's `regex` attribute. Normally the regex compiled (case
   * insensitively) from the translated source; a rule string carrying a
   * `regex:` attribute leaves plain text there instead, which has no
   * `search` method.
   */
  datatype Regex = Compiled(source: string) | Uncompiled(text: string)

  datatype Pattern = Pattern(value: string, regex: Regex, confidence: int, version: string, key: string)

  /** What the loader stores for a pattern field: a list of patterns, or patterns keyed by a header, cookie, meta or variable name. */
  datatype PatternSet = Flat(patterns: seq<Pattern>) | Keyed(entries: Dict<seq<Pattern>>)

  /** The pattern-bearing fields of a technology. */
  datatype Field = Url | Headers | Cookies | Html | Meta | Scripts | Js

  datatype Technology = Technology(
    name: string,
    categories: seq<Category>,
    url: PatternSet,
    headers: PatternSet,
    cookies: PatternSet,
    html: PatternSet,
    meta: PatternSet,
    scripts: PatternSet,
    js: PatternSet,
    implies: seq<Imply>,
    excludes: seq<Exclude>)
  {
    /**
     * `technology[field]` and `technology.get(field, [])`: a technology
     * built by the loader has every field, so both read the field.
     */
    function Patterns(f: Field): PatternSet {
      match f
      case Url => url
      case Headers => headers
      case Cookies => cookies
      case Html => html
      case Meta => meta
      case Scripts => scripts
      case Js => js
    }
  }

  /** One pattern firing against one observed value. */
  datatype PatternMatch = PatternMatch(technology: Technology, pattern: Pattern, version: string)

  /** One technology, with its aggregated confidence and version. */
  datatype TechMatch = TechMatch(technology: Technology, confidence: int, version: string)

  /** The tuple `PatternMatch.__hash__` hashes: technology name, pattern key, pattern value. */
  type HitKey = (string, string, string)

  function KeyOf(h: PatternMatch): HitKey {
    (h.technology.name, h.pattern.key, h.pattern.value)
  }

  /**
   * `PatternMatch.__eq__` as written: the key and value terms compare
   * `self` with `self`, so only the technology names are ever compared.
   */
  predicate HitEq(self: PatternMatch, o: PatternMatch) {
    && self.technology.name == o.technology.name
    && self.pattern.key == self.pattern.key
    && self.pattern.value == self.pattern.value
  }

  /** `pattern_match == techno_match`: `PatternMatch.__eq__` reads only `o.technology.name`, which a `TechMatch` has too. */
  predicate HitEqTech(self: PatternMatch, o: TechMatch) {
    && self.technology.name == o.technology.name
    && self.pattern.key == self.pattern.key
    && self.pattern.value == self.pattern.value
  }

  /** `TechMatch.__eq__`. */
  predicate TechEq(self: TechMatch, o: TechMatch) {
    self.technology.name == o.technology.name
  }

  /**
   * Whether a Python `set` keeps only one of two hits: their hashes agree
   * and they compare equal (hash collisions between different tuples are
   * not modelled).
   */
  predicate SetMerges(a: PatternMatch, b: PatternMatch) {
    KeyOf(a) == KeyOf(b) && HitEq(a, b)
  }

  lemma HitEqIsNameEq(a: PatternMatch, b: PatternMatch)
    ensures HitEq(a, b) <==> a.technology.name == b.technology.name
  {
  }

  lemma HitEqTechIsNameEq(a: PatternMatch, b: TechMatch)
    ensures HitEqTech(a, b) <==> a.technology.name == b.technology.name
  {
  }

  lemma TechEqIgnoresConfidenceAndVersion(t: Technology, c: int, v: string, c': int, v': string)
    ensures TechEq(TechMatch(t, c, v), TechMatch(t, c', v'))
  {
  }

  /** Set deduplication merges exactly the hits with the same (name, key, value) tuple. */
  lemma SetMergesIsKeyEq(a: PatternMatch, b: PatternMatch)
    ensures SetMerges(a, b) <==> KeyOf(a) == KeyOf(b)
  {
  }

  /** Equality is coarser than the hash key: two hits of one technology from different patterns compare equal. */
  lemma HitEqCoarserThanKey(t: Technology, p: Pattern, q: Pattern, v: string, w: string)
    requires p.key != q.key || p.value != q.value
    ensures HitEq(PatternMatch(t, p, v), PatternMatch(t, q, w))
    ensures KeyOf(PatternMatch(t, p, v)) != KeyOf(PatternMatch(t, q, w))
  {
  }

  /** The abstract regex engine: `search(source, value)` gives the groups of the leftmost match (group 0 is the whole match), or `None`. */
  type SearchFn = (string, string) -> Option<seq<Option<string>>>

  /** The failures the loader and the engine can raise. */
  datatype Error =
    | MissingSection(section: string)          // `json_dict["categories"]` / `["technologies"]` absent
    | MissingCategory(id: string)              // `categories[str(c)]` absent
    | InvalidRegex(source: string)             // `re.compile` rejects the translated source
    | InvalidConfidence(text: string)          // `int(...)` rejects the confidence attribute
    | RelationNotList(technology: string)      // `implies` / `excludes` loaded as a mapping
    | NotAPatternList(technology: string, field: Field)  // a mapping iterated as patterns
    | NotAPatternMap(technology: string, field: Field)   // a non-empty list indexed by key
    | RegexNotCompiled(value: string)          // `.search` on a text `regex` attribute
    | MissingTechnology(name: string)          // `technologies[imply.name]` absent
}
