/**
 * The signal matcher: which patterns of which technologies fire on the
 * values observed for a page, in the order the generators of the matcher
 * yield them. A failure (a pattern whose `regex` is text, a field of the
 * wrong shape) aborts the whole enumeration, as the exception does once
 * the hits are consumed.
 */
module Matcher {
  import opened Wrappers
  import opened Strings
  import opened Dicts
  import opened Structs
  import opened Version

  type Hits = Result<seq<PatternMatch>, Error>

  /** Two generators chained with `yield from`: the first failure wins, otherwise the hits are concatenated. */
  function Then(a: Hits, b: Hits): (r: Hits)
    ensures r.Success? <==> a.Success? && b.Success?
    ensures r.Success? ==> r.value == a.value + b.value
    ensures a.Failure? ==> r == a
  {
    var x :- a;
    var y :- b;
    Success(x + y)
  }

  lemma ThenAssoc(a: Hits, b: Hits, c: Hits)
    ensures Then(Then(a, b), c) == Then(a, Then(b, c))
  {
    if a.Success? && b.Success? && c.Success? {
      assert a.value + b.value + c.value == a.value + (b.value + c.value);
    }
  }

  // ---------------------------------------------------------------------
  // _match_patterns

  /** `pattern.regex.search(value)` finds a match. */
  predicate Fires(p: Pattern, value: string, search: SearchFn) {
    p.regex.Compiled? && search(p.regex.source, value).Some?
  }

  /** The hit yielded for a firing pattern; its version is resolved by searching the same value again. */
  function HitOf(p: Pattern, tech: Technology, value: string, search: SearchFn): PatternMatch
    requires p.regex.Compiled?
  {
    PatternMatch(tech, p, ResolveVersionSpec(p.version, p.regex.source, value, search))
  }

  /** `_match_patterns(patterns, technology, value)`. */
  function MatchPatterns(patterns: seq<Pattern>, tech: Technology, value: string, search: SearchFn): Hits
    decreases |patterns|
  {
    if patterns == [] then Success([])
    else
      var p := patterns[0];
      if p.regex.Uncompiled? then Failure(RegexNotCompiled(p.value))
      else Then(Success(if search(p.regex.source, value).Some? then [HitOf(p, tech, value, search)] else []),
                MatchPatterns(patterns[1..], tech, value, search))
  }

  predicate AllCompiled(patterns: seq<Pattern>) {
    forall i :: 0 <= i < |patterns| ==> patterns[i].regex.Compiled?
  }

  /** Reference reading: the patterns that fire, in pattern order. */
  function Firing(patterns: seq<Pattern>, value: string, search: SearchFn): (r: seq<Pattern>)
    ensures forall p :: p in r <==> p in patterns && Fires(p, value, search)
    decreases |patterns|
  {
    if patterns == [] then []
    else
      var rest := Firing(patterns[1..], value, search);
      assert forall p :: p in patterns <==> p == patterns[0] || p in patterns[1..];
      (if Fires(patterns[0], value, search) then [patterns[0]] else []) + rest
  }

  function PatternsOf(hits: seq<PatternMatch>): (r: seq<Pattern>)
    ensures |r| == |hits|
    decreases |hits|
  {
    if hits == [] then [] else [hits[0].pattern] + PatternsOf(hits[1..])
  }

  lemma PatternsOfCons(hs: seq<PatternMatch>, rest: seq<PatternMatch>)
    requires |hs| <= 1
    ensures PatternsOf(hs + rest) == PatternsOf(hs) + PatternsOf(rest)
  {
    if hs == [] {
      assert hs + rest == rest;
    } else {
      assert (hs + rest)[1..] == rest;
      assert (hs + rest)[0] == hs[0];
      assert PatternsOf(hs) == [hs[0].pattern] + PatternsOf([]);
    }
  }

  /** A hit of `tech` for a firing pattern, read off `value`. */
  predicate HitFor(h: PatternMatch, tech: Technology, value: string, search: SearchFn) {
    h.technology == tech && Fires(h.pattern, value, search) && h == HitOf(h.pattern, tech, value, search)
  }

  /**
   * `_match_patterns` yields a hit exactly for the patterns whose search
   * succeeds, in pattern order, each with the version resolved from that
   * value; it fails exactly when some pattern's `regex` is text.
   */
  lemma {:induction false} MatchPatternsMeaning(patterns: seq<Pattern>, tech: Technology, value: string, search: SearchFn)
    ensures var r := MatchPatterns(patterns, tech, value, search);
      && (r.Success? <==> AllCompiled(patterns))
      && (r.Success? ==> PatternsOf(r.value) == Firing(patterns, value, search))
      && (r.Success? ==> forall h :: h in r.value ==> h.pattern in patterns && HitFor(h, tech, value, search))
    decreases |patterns|
  {
    if patterns != [] {
      var p := patterns[0];
      MatchPatternsMeaning(patterns[1..], tech, value, search);
      assert forall i :: 1 <= i < |patterns| ==> patterns[i] == patterns[1..][i - 1];
      if p.regex.Compiled? {
        var first: seq<PatternMatch> := if search(p.regex.source, value).Some? then [HitOf(p, tech, value, search)] else [];
        var r := MatchPatterns(patterns, tech, value, search);
        if r.Success? {
          PatternsOfCons(first, MatchPatterns(patterns[1..], tech, value, search).value);
        }
      }
    }
  }

  // ---------------------------------------------------------------------
  // match_str, match_list

  /** Iterating a stored field as patterns: a non-empty mapping yields its keys, which have no `regex`. */
  function MatchPatternSet(ps: PatternSet, field: Field, tech: Technology, value: string, search: SearchFn): Hits {
    match ps
    case Flat(patterns) => MatchPatterns(patterns, tech, value, search)
    case Keyed(entries) => if entries == [] then Success([]) else Failure(NotAPatternList(tech.name, field))
  }

  /** `match_str(tech, field, value)`, used for `url` and `html`. */
  function MatchStr(tech: Technology, field: Field, value: string, search: SearchFn): Hits {
    MatchPatternSet(tech.Patterns(field), field, tech, value, search)
  }

  /** Every value in turn against the same patterns. */
  function MatchEach(ps: PatternSet, field: Field, tech: Technology, values: seq<string>, search: SearchFn): Hits
    decreases |values|
  {
    if values == [] then Success([])
    else Then(MatchPatternSet(ps, field, tech, values[0], search), MatchEach(ps, field, tech, values[1..], search))
  }

  /** `match_list(tech, field, values)`, used for `scripts`. */
  function MatchList(tech: Technology, field: Field, values: seq<string>, search: SearchFn): Hits {
    MatchEach(tech.Patterns(field), field, tech, values, search)
  }

  /** A hit of `tech` justified by one of `values`. */
  predicate JustifiedBy(h: PatternMatch, tech: Technology, values: seq<string>, search: SearchFn) {
    exists v :: v in values && HitFor(h, tech, v, search)
  }

  predicate AllJustified(r: Hits, tech: Technology, values: seq<string>, search: SearchFn) {
    r.Success? ==> forall h :: h in r.value ==> JustifiedBy(h, tech, values, search)
  }

  lemma PatternSetJustified(ps: PatternSet, field: Field, tech: Technology, value: string, values: seq<string>, search: SearchFn)
    requires value in values
    ensures AllJustified(MatchPatternSet(ps, field, tech, value, search), tech, values, search)
  {
    if ps.Flat? {
      MatchPatternsMeaning(ps.patterns, tech, value, search);
    }
  }

  /** Every hit of a value list is a firing pattern on one of the values. */
  lemma {:induction false} MatchEachSound(ps: PatternSet, field: Field, tech: Technology, values: seq<string>, search: SearchFn)
    ensures AllJustified(MatchEach(ps, field, tech, values, search), tech, values, search)
    decreases |values|
  {
    if values != [] {
      MatchEachSound(ps, field, tech, values[1..], search);
      PatternSetJustified(ps, field, tech, values[0], values, search);
      var r := MatchEach(ps, field, tech, values, search);
      if r.Success? {
        forall h | h in MatchEach(ps, field, tech, values[1..], search).value
          ensures JustifiedBy(h, tech, values, search)
        {
          var v :| v in values[1..] && HitFor(h, tech, v, search);
          assert v in values;
        }
      }
    }
  }

  /** Every pattern of a list field that fires on one of the values gives a hit. */
  lemma {:induction false} MatchEachComplete(patterns: seq<Pattern>, field: Field, tech: Technology, values: seq<string>, search: SearchFn,
                                             p: Pattern, v: string)
    requires p in patterns && v in values && Fires(p, v, search)
    requires MatchEach(Flat(patterns), field, tech, values, search).Success?
    ensures HitOf(p, tech, v, search) in MatchEach(Flat(patterns), field, tech, values, search).value
    decreases |values|
  {
    if values[0] == v {
      MatchPatternsMeaning(patterns, tech, v, search);
      FiringHit(MatchPatterns(patterns, tech, v, search).value, patterns, tech, v, search, p);
    } else {
      MatchEachComplete(patterns, field, tech, values[1..], search, p, v);
    }
  }

  /** A firing pattern is the pattern of some hit, and that hit is its `HitOf`. */
  lemma FiringHit(hits: seq<PatternMatch>, patterns: seq<Pattern>, tech: Technology, v: string, search: SearchFn, p: Pattern)
    requires PatternsOf(hits) == Firing(patterns, v, search)
    requires forall h :: h in hits ==> HitFor(h, tech, v, search)
    requires p in patterns && Fires(p, v, search)
    ensures HitOf(p, tech, v, search) in hits
  {
    assert p in PatternsOf(hits);
    PatternIndexExists(hits, p);
    var k :| 0 <= k < |hits| && hits[k].pattern == p;
    assert hits[k] in hits;
  }

  lemma {:induction false} PatternIndexExists(hits: seq<PatternMatch>, p: Pattern)
    requires p in PatternsOf(hits)
    ensures exists k :: 0 <= k < |hits| && hits[k].pattern == p
    decreases |hits|
  {
    if hits[0].pattern != p {
      PatternIndexExists(hits[1..], p);
      var k :| 0 <= k < |hits[1..]| && hits[1..][k].pattern == p;
      assert hits[k + 1].pattern == p;
    }
  }

  // ---------------------------------------------------------------------
  // match_pairs

  /** `pairs_local[k.lower()] = pairs[k]` for every supplied key, continuing from `acc`. */
  function LowerKeysFrom<V>(acc: Dict<V>, pairs: Dict<V>): Dict<V>
    decreases |pairs|
  {
    if pairs == [] then acc
    else LowerKeysFrom(Put(acc, Lower(pairs[0].0), pairs[0].1), pairs[1..])
  }

  function LowerKeys<V>(pairs: Dict<V>): Dict<V> {
    LowerKeysFrom([], pairs)
  }

  /** The loop of `match_pairs` that copies the supplied cookies under lower-case names. */
  method LowerCookieKeys<V>(pairs: Dict<V>) returns (local: Dict<V>)
    ensures local == LowerKeys(pairs)
  {
    local := [];
    for i := 0 to |pairs|
      invariant LowerKeysFrom(local, pairs[i..]) == LowerKeys(pairs)
    {
      assert pairs[i..][1..] == pairs[i + 1..];
      local := Put(local, Lower(pairs[i].0), pairs[i].1);
    }
    assert pairs[|pairs|..] == [];
  }

  predicate LowerDistinct<V>(d: Dict<V>) {
    DistinctKeys(d) && forall i :: 0 <= i < |d| ==> IsLower(d[i].0)
  }

  /** Reference reading: the value of the LAST supplied key that lower-cases to `k`. */
  function LastLowered<V>(pairs: Dict<V>, k: string): Option<V>
    decreases |pairs|
  {
    if pairs == [] then None
    else
      var later := LastLowered(pairs[1..], k);
      if later.Some? then later else if Lower(pairs[0].0) == k then Some(pairs[0].1) else None
  }

  /** The copied names are distinct and lower-case, and each holds the value of the last key that lower-cases to it. */
  lemma {:induction false} LowerKeysMeaning<V>(acc: Dict<V>, pairs: Dict<V>, k: string)
    requires LowerDistinct(acc)
    ensures LowerDistinct(LowerKeysFrom(acc, pairs))
    ensures Get(LowerKeysFrom(acc, pairs), k) == if LastLowered(pairs, k).Some? then LastLowered(pairs, k) else Get(acc, k)
    decreases |pairs|
  {
    if pairs != [] {
      var key := Lower(pairs[0].0);
      var next := Put(acc, key, pairs[0].1);
      PutKeepsDistinct(acc, key, pairs[0].1);
      LowerIsLower(pairs[0].0);
      forall i | 0 <= i < |next| ensures IsLower(next[i].0) {
        if i >= |acc| {
          assert next == acc + [(key, pairs[0].1)];
        }
      }
      LowerKeysMeaning(next, pairs[1..], k);
      GetPut(acc, key, pairs[0].1, k);
    }
  }

  /** Copying names that are already distinct and lower-case, and new to `acc`, appends them unchanged. */
  lemma {:induction false} LowerKeysOfLower<V>(acc: Dict<V>, d: Dict<V>)
    requires LowerDistinct(d)
    requires forall i :: 0 <= i < |d| ==> !HasKey(acc, d[i].0)
    ensures LowerKeysFrom(acc, d) == acc + d
    decreases |d|
  {
    if d != [] {
      var (k, v) := d[0];
      LowerOfLower(k);
      assert Put(acc, k, v) == acc + [(k, v)];
      forall i | 0 <= i < |d[1..]| ensures !HasKey(acc + [(k, v)], d[1..][i].0) {
        assert d[1..][i] == d[i + 1];
        HasKeyAppend(acc, (k, v), d[i + 1].0);
      }
      assert LowerDistinct(d[1..]) by {
        forall i | 0 <= i < |d[1..]| ensures IsLower(d[1..][i].0) {
          assert d[1..][i] == d[i + 1];
        }
      }
      LowerKeysOfLower(acc + [(k, v)], d[1..]);
      assert acc + [(k, v)] + d[1..] == acc + d;
    }
  }

  /** Lower-casing the supplied cookie names twice is lower-casing them once. */
  lemma LowerKeysIdempotent<V>(pairs: Dict<V>)
    ensures LowerKeys(LowerKeys(pairs)) == LowerKeys(pairs)
  {
    LowerKeysMeaning([], pairs, "");
    LowerKeysOfLower([], LowerKeys(pairs));
  }

  /** The `for key in tech[field]` loop: each declared key's patterns against the values supplied under that key. */
  function MatchKeys(entries: Dict<seq<Pattern>>, field: Field, tech: Technology, local: Dict<seq<string>>, search: SearchFn): Hits
    decreases |entries|
  {
    if entries == [] then Success([])
    else Then(MatchEach(Flat(entries[0].1), field, tech, GetOr(local, entries[0].0, []), search),
              MatchKeys(entries[1..], field, tech, local, search))
  }

  /**
   * `match_pairs(tech, field, pairs)`, used for `headers`, `cookies`,
   * `meta` and `js`: only cookie names are lower-cased; a non-empty list
   * field cannot be indexed by key.
   */
  function MatchPairs(tech: Technology, field: Field, pairs: Dict<seq<string>>, search: SearchFn): Hits {
    var local := if field == Cookies then LowerKeys(pairs) else pairs;
    match tech.Patterns(field)
    case Flat(patterns) => if patterns == [] then Success([]) else Failure(NotAPatternMap(tech.name, field))
    case Keyed(entries) => MatchKeys(entries, field, tech, local, search)
  }

  /** Only the values supplied under a declared key are ever looked at. */
  lemma {:induction false} MatchKeysOnlyDeclared(entries: Dict<seq<Pattern>>, field: Field, tech: Technology,
                                                 local: Dict<seq<string>>, local': Dict<seq<string>>, search: SearchFn)
    requires forall i :: 0 <= i < |entries| ==> GetOr(local, entries[i].0, []) == GetOr(local', entries[i].0, [])
    ensures MatchKeys(entries, field, tech, local, search) == MatchKeys(entries, field, tech, local', search)
    decreases |entries|
  {
    if entries != [] {
      assert forall i :: 1 <= i < |entries| ==> entries[1..][i - 1] == entries[i];
      MatchKeysOnlyDeclared(entries[1..], field, tech, local, local', search);
    }
  }

  /** Cookie names are matched case-insensitively: supplying them lower-cased changes nothing. */
  lemma CookiesCaseInsensitive(tech: Technology, pairs: Dict<seq<string>>, search: SearchFn)
    ensures MatchPairs(tech, Cookies, pairs, search) == MatchPairs(tech, Cookies, LowerKeys(pairs), search)
  {
    LowerKeysIdempotent(pairs);
  }

  /** Header names are not lower-cased when matching: a header supplied as `Server` misses a rule for `server`. */
  lemma HeadersCaseSensitive(tech: Technology, patterns: seq<Pattern>, values: seq<string>, search: SearchFn)
    requires tech.headers == Keyed([("server", patterns)])
    ensures MatchPairs(tech, Headers, [("Server", values)], search) == Success([])
  {
    var d := [("Server", values)];
    assert d[0].0 != "server";
    assert Get(d[1..], "server") == None;
    assert GetOr(d, "server", []) == [];
    assert [("server", patterns)][1..] == [];
    assert MatchEach(Flat(patterns), Headers, tech, [], search) == Success([]);
    assert MatchKeys([], Headers, tech, d, search) == Success([]);
    assert MatchKeys([("server", patterns)], Headers, tech, d, search) == Then(Success([]), Success([]));
  }

  /** Every hit of a technology's keyed field comes from a value supplied under a declared key. */
  lemma {:induction false} MatchKeysSound(entries: Dict<seq<Pattern>>, field: Field, tech: Technology, local: Dict<seq<string>>, search: SearchFn)
    ensures AllJustified(MatchKeys(entries, field, tech, local, search), tech, ValuesUnder(entries, local), search)
    decreases |entries|
  {
    if entries != [] {
      var here := GetOr(local, entries[0].0, []);
      var all := ValuesUnder(entries, local);
      MatchEachSound(Flat(entries[0].1), field, tech, here, search);
      MatchKeysSound(entries[1..], field, tech, local, search);
      JustifiedWiden(MatchEach(Flat(entries[0].1), field, tech, here, search), tech, here, all, search);
      JustifiedWiden(MatchKeys(entries[1..], field, tech, local, search), tech, ValuesUnder(entries[1..], local), all, search);
    }
  }

  /** The values supplied under the declared keys, key by key. */
  function ValuesUnder(entries: Dict<seq<Pattern>>, local: Dict<seq<string>>): (r: seq<string>)
    ensures entries != [] ==> r == GetOr(local, entries[0].0, []) + ValuesUnder(entries[1..], local)
    decreases |entries|
  {
    if entries == [] then [] else GetOr(local, entries[0].0, []) + ValuesUnder(entries[1..], local)
  }

  lemma JustifiedWiden(r: Hits, tech: Technology, values: seq<string>, wider: seq<string>, search: SearchFn)
    requires AllJustified(r, tech, values, search)
    requires forall v :: v in values ==> v in wider
    ensures AllJustified(r, tech, wider, search)
  {
    if r.Success? {
      forall h | h in r.value ensures JustifiedBy(h, tech, wider, search) {
        var v :| v in values && HitFor(h, tech, v, search);
      }
    }
  }

  // ---------------------------------------------------------------------
  // match_all, discover_technologies

  /** The inputs of `match_all`; an absent (`None`) input is represented by an empty one, which is skipped just the same. */
  datatype Signals = Signals(
    url: string,
    headers: Dict<seq<string>>,
    cookies: Dict<seq<string>>,
    html: string,
    metas: Dict<seq<string>>,
    scripts: seq<string>,
    jsVars: Dict<seq<string>>)

  /** The input for `f` is truthy. */
  predicate Supplied(s: Signals, f: Field) {
    match f
    case Url => s.url != ""
    case Headers => s.headers != []
    case Cookies => s.cookies != []
    case Html => s.html != ""
    case Meta => s.metas != []
    case Scripts => s.scripts != []
    case Js => s.jsVars != []
  }

  /** The order `match_all` appends its field matchers in. */
  const Canonical: seq<Field> := [Url, Headers, Cookies, Html, Meta, Scripts, Js]

  function Rank(f: Field): nat {
    match f
    case Url => 0
    case Headers => 1
    case Cookies => 2
    case Html => 3
    case Meta => 4
    case Scripts => 5
    case Js => 6
  }

  /** The fields among `fields` whose input is supplied, in the same order. */
  function SuppliedAmong(fields: seq<Field>, s: Signals): seq<Field>
    decreases |fields|
  {
    if fields == [] then []
    else (if Supplied(s, fields[0]) then [fields[0]] else []) + SuppliedAmong(fields[1..], s)
  }

  /** `match_funcs`: the fields `match_all` runs, each input that is falsy being skipped. */
  function FieldOrder(s: Signals): seq<Field> {
    SuppliedAmong(Canonical, s)
  }

  predicate Increasing(fields: seq<Field>) {
    forall i, j :: 0 <= i < j < |fields| ==> Rank(fields[i]) < Rank(fields[j])
  }

  lemma {:induction false} SuppliedAmongMeaning(fields: seq<Field>, s: Signals)
    requires Increasing(fields)
    ensures forall f :: f in SuppliedAmong(fields, s) <==> f in fields && Supplied(s, f)
    ensures Increasing(SuppliedAmong(fields, s))
    decreases |fields|
  {
    if fields != [] {
      assert Increasing(fields[1..]) by {
        forall i, j | 0 <= i < j < |fields[1..]| ensures Rank(fields[1..][i]) < Rank(fields[1..][j]) {
          assert fields[1..][i] == fields[i + 1] && fields[1..][j] == fields[j + 1];
        }
      }
      SuppliedAmongMeaning(fields[1..], s);
      var rest := SuppliedAmong(fields[1..], s);
      forall g | g in rest ensures Rank(fields[0]) < Rank(g) {
        var j :| 0 <= j < |fields[1..]| && fields[1..][j] == g;
        assert fields[j + 1] == g;
      }
      assert forall f :: f in fields <==> f == fields[0] || f in fields[1..];
    }
  }

  /** `match_all` runs a field's matcher exactly when its input is supplied, in the order url, headers, cookies, html, metas, scripts, js. */
  lemma FieldOrderMeaning(s: Signals)
    ensures forall f :: f in FieldOrder(s) <==> Supplied(s, f)
    ensures Increasing(FieldOrder(s))
  {
    CanonicalRanks();
    CanonicalComplete();
    SuppliedAmongMeaning(Canonical, s);
  }

  /** Each field sits in `Canonical` at its rank. */
  lemma CanonicalRanks()
    ensures |Canonical| == 7
    ensures forall i :: 0 <= i < |Canonical| ==> Rank(Canonical[i]) == i
    ensures Increasing(Canonical)
  {
    assert Rank(Canonical[0]) == 0 && Rank(Canonical[1]) == 1 && Rank(Canonical[2]) == 2 && Rank(Canonical[3]) == 3;
    assert Rank(Canonical[4]) == 4 && Rank(Canonical[5]) == 5 && Rank(Canonical[6]) == 6;
  }

  lemma CanonicalComplete()
    ensures forall f :: f in Canonical
  {
    forall f ensures f in Canonical {
      assert Canonical[Rank(f)] == f;
    }
  }

  /** The wrappers `match_url`, `match_headers`, ... with the input each one is given. */
  function MatchField(tech: Technology, f: Field, s: Signals, search: SearchFn): Hits {
    match f
    case Url => MatchStr(tech, Url, s.url, search)
    case Headers => MatchPairs(tech, Headers, s.headers, search)
    case Cookies => MatchPairs(tech, Cookies, s.cookies, search)
    case Html => MatchStr(tech, Html, s.html, search)
    case Meta => MatchPairs(tech, Meta, s.metas, search)
    case Scripts => MatchList(tech, Scripts, s.scripts, search)
    case Js => MatchPairs(tech, Js, s.jsVars, search)
  }

  /** `match_parts(techno, funcs)`. */
  function MatchFields(tech: Technology, fields: seq<Field>, s: Signals, search: SearchFn): Hits
    decreases |fields|
  {
    if fields == [] then Success([])
    else Then(MatchField(tech, fields[0], s, search), MatchFields(tech, fields[1..], s, search))
  }

  /** `match_all(technologies, ...)`: every technology in dictionary order, each through the selected fields. */
  function MatchAll(techs: Dict<Technology>, s: Signals, search: SearchFn): Hits
    decreases |techs|
  {
    if techs == [] then Success([])
    else Then(MatchFields(techs[0].1, FieldOrder(s), s, search), MatchAll(techs[1..], s, search))
  }

  /** The hits of a dictionary split in two are those of the first part, then those of the second. */
  lemma {:induction false} MatchAllAppend(a: Dict<Technology>, b: Dict<Technology>, s: Signals, search: SearchFn)
    ensures MatchAll(a + b, s, search) == Then(MatchAll(a, s, search), MatchAll(b, s, search))
    decreases |a|
  {
    if a != [] {
      assert (a + b)[0] == a[0] && (a + b)[1..] == a[1..] + b;
      assert MatchAll(a + b, s, search) == Then(MatchFields(a[0].1, FieldOrder(s), s, search), MatchAll(a[1..] + b, s, search));
      assert MatchAll(a, s, search) == Then(MatchFields(a[0].1, FieldOrder(s), s, search), MatchAll(a[1..], s, search));
      MatchAllAppend(a[1..], b, s, search);
      ThenAssoc(MatchFields(a[0].1, FieldOrder(s), s, search), MatchAll(a[1..], s, search), MatchAll(b, s, search));
    } else {
      assert a + b == b;
      var r := MatchAll(b, s, search);
      if r.Success? {
        assert [] + r.value == r.value;
      }
    }
  }

  /** Nothing supplied, nothing found. */
  lemma {:induction false} MatchAllNothingSupplied(techs: Dict<Technology>, s: Signals, search: SearchFn)
    requires forall f :: !Supplied(s, f)
    ensures MatchAll(techs, s, search) == Success([])
    decreases |techs|
  {
    FieldOrderMeaning(s);
    if techs != [] {
      MatchAllNothingSupplied(techs[1..], s, search);
    }
  }

  /** Every hit is a hit of one of the technologies of the dictionary. */
  lemma {:induction false} MatchAllTechnologies(techs: Dict<Technology>, s: Signals, search: SearchFn)
    ensures var r := MatchAll(techs, s, search);
      r.Success? ==> forall h :: h in r.value ==> exists i :: 0 <= i < |techs| && techs[i].1 == h.technology
    decreases |techs|
  {
    if techs != [] {
      var t := techs[0].1;
      MatchFieldsOfTech(t, FieldOrder(s), s, search);
      MatchAllTechnologies(techs[1..], s, search);
      var a := MatchFields(t, FieldOrder(s), s, search);
      var b := MatchAll(techs[1..], s, search);
      assert MatchAll(techs, s, search) == Then(a, b);
      HeadOrTail(techs, a, b);
    }
  }

  lemma HeadOrTail(techs: Dict<Technology>, a: Hits, b: Hits)
    requires techs != [] && OfTech(a, techs[0].1)
    requires b.Success? ==> forall h :: h in b.value ==> exists i :: 0 <= i < |techs[1..]| && techs[1..][i].1 == h.technology
    ensures var r := Then(a, b);
      r.Success? ==> forall h :: h in r.value ==> exists i :: 0 <= i < |techs| && techs[i].1 == h.technology
  {
    var r := Then(a, b);
    if r.Success? {
      assert r.value == a.value + b.value;
      forall h | h in r.value ensures exists i :: 0 <= i < |techs| && techs[i].1 == h.technology {
        if h in a.value {
          assert techs[0].1 == h.technology;
        } else {
          assert h in b.value;
          var i :| 0 <= i < |techs[1..]| && techs[1..][i].1 == h.technology;
          assert techs[i + 1].1 == h.technology;
        }
      }
    }
  }


  /** The hits of one technology's fields. */
  predicate OfTech(r: Hits, tech: Technology) {
    r.Success? ==> forall h :: h in r.value ==> h.technology == tech
  }

  lemma {:induction false} MatchEachOfTech(ps: PatternSet, field: Field, tech: Technology, values: seq<string>, search: SearchFn)
    ensures OfTech(MatchEach(ps, field, tech, values, search), tech)
  {
    MatchEachSound(ps, field, tech, values, search);
  }

  lemma {:induction false} MatchKeysOfTech(entries: Dict<seq<Pattern>>, field: Field, tech: Technology, local: Dict<seq<string>>, search: SearchFn)
    ensures OfTech(MatchKeys(entries, field, tech, local, search), tech)
  {
    MatchKeysSound(entries, field, tech, local, search);
  }

  lemma MatchFieldOfTech(tech: Technology, f: Field, s: Signals, search: SearchFn)
    ensures OfTech(MatchField(tech, f, s, search), tech)
  {
    match f
    case Url => PatternSetJustified(tech.url, Url, tech, s.url, [s.url], search);
    case Html => PatternSetJustified(tech.html, Html, tech, s.html, [s.html], search);
    case Scripts => MatchEachOfTech(tech.scripts, Scripts, tech, s.scripts, search);
    case Headers => PairsOfTech(tech, Headers, s.headers, search);
    case Cookies => PairsOfTech(tech, Cookies, s.cookies, search);
    case Meta => PairsOfTech(tech, Meta, s.metas, search);
    case Js => PairsOfTech(tech, Js, s.jsVars, search);
  }

  lemma PairsOfTech(tech: Technology, field: Field, pairs: Dict<seq<string>>, search: SearchFn)
    ensures OfTech(MatchPairs(tech, field, pairs, search), tech)
  {
    var local := if field == Cookies then LowerKeys(pairs) else pairs;
    if tech.Patterns(field).Keyed? {
      MatchKeysOfTech(tech.Patterns(field).entries, field, tech, local, search);
    }
  }

  lemma {:induction false} MatchFieldsOfTech(tech: Technology, fields: seq<Field>, s: Signals, search: SearchFn)
    ensures OfTech(MatchFields(tech, fields, s, search), tech)
    decreases |fields|
  {
    if fields != [] {
      MatchFieldOfTech(tech, fields[0], s, search);
      MatchFieldsOfTech(tech, fields[1..], s, search);
    }
  }

  // ---------------------------------------------------------------------
  // What match_all reports, field by field

  /** `p` is one of the patterns of a list field and `v` one of the values given for it. */
  predicate FlatOffer(ps: PatternSet, values: seq<string>, p: Pattern, v: string) {
    ps.Flat? && p in ps.patterns && v in values
  }

  /** `p` is declared under some key of a keyed field and `v` is one of the values supplied under that key. */
  predicate KeyedOffer(ps: PatternSet, local: Dict<seq<string>>, p: Pattern, v: string) {
    ps.Keyed? && exists j :: 0 <= j < |ps.entries| && p in ps.entries[j].1 && v in GetOr(local, ps.entries[j].0, [])
  }

  /**
   * `match_all` looks at `p` against `v` for field `f`: for `url` and
   * `html` the one value supplied, for `scripts` each script, and for the
   * keyed fields each value supplied under the key `p` is declared under,
   * cookie names being lower-cased first.
   */
  predicate Offered(tech: Technology, f: Field, s: Signals, p: Pattern, v: string) {
    match f
    case Url => FlatOffer(tech.url, [s.url], p, v)
    case Html => FlatOffer(tech.html, [s.html], p, v)
    case Scripts => FlatOffer(tech.scripts, s.scripts, p, v)
    case Headers => KeyedOffer(tech.headers, s.headers, p, v)
    case Cookies => KeyedOffer(tech.cookies, LowerKeys(s.cookies), p, v)
    case Meta => KeyedOffer(tech.meta, s.metas, p, v)
    case Js => KeyedOffer(tech.js, s.jsVars, p, v)
  }

  /** `h` is the hit of a pattern of field `f` firing on a value offered to it. */
  ghost predicate HitVia(h: PatternMatch, tech: Technology, f: Field, s: Signals, search: SearchFn) {
    exists v :: Offered(tech, f, s, h.pattern, v) && HitFor(h, tech, v, search)
  }

  /** `h` is the hit of one of `fields` of `tech`. */
  ghost predicate FromFields(h: PatternMatch, tech: Technology, fields: seq<Field>, s: Signals, search: SearchFn) {
    exists f :: f in fields && HitVia(h, tech, f, s, search)
  }

  lemma PatternSetOffered(ps: PatternSet, field: Field, tech: Technology, value: string, search: SearchFn)
    ensures var r := MatchPatternSet(ps, field, tech, value, search);
      r.Success? ==> forall h :: h in r.value ==> FlatOffer(ps, [value], h.pattern, value) && HitFor(h, tech, value, search)
  {
    if ps.Flat? {
      MatchPatternsMeaning(ps.patterns, tech, value, search);
    }
  }

  /** Every hit of a value list is a pattern of the list firing on one of the values. */
  lemma {:induction false} MatchEachOffered(ps: PatternSet, field: Field, tech: Technology, values: seq<string>, search: SearchFn)
    ensures var r := MatchEach(ps, field, tech, values, search);
      r.Success? ==> forall h :: h in r.value ==> exists v :: FlatOffer(ps, values, h.pattern, v) && HitFor(h, tech, v, search)
    decreases |values|
  {
    if values != [] {
      var a := MatchPatternSet(ps, field, tech, values[0], search);
      var b := MatchEach(ps, field, tech, values[1..], search);
      PatternSetOffered(ps, field, tech, values[0], search);
      MatchEachOffered(ps, field, tech, values[1..], search);
      if a.Success? && b.Success? {
        forall h | h in a.value + b.value ensures exists v :: FlatOffer(ps, values, h.pattern, v) && HitFor(h, tech, v, search) {
          if h in a.value {
            assert FlatOffer(ps, values, h.pattern, values[0]);
          } else {
            var v :| FlatOffer(ps, values[1..], h.pattern, v) && HitFor(h, tech, v, search);
            assert FlatOffer(ps, values, h.pattern, v);
          }
        }
      }
    }
  }

  /** Every hit of a keyed field is a pattern declared under a key firing on a value supplied under that key. */
  lemma {:induction false} MatchKeysOffered(entries: Dict<seq<Pattern>>, field: Field, tech: Technology, local: Dict<seq<string>>, search: SearchFn)
    ensures var r := MatchKeys(entries, field, tech, local, search);
      r.Success? ==> forall h :: h in r.value ==> exists v :: KeyedOffer(Keyed(entries), local, h.pattern, v) && HitFor(h, tech, v, search)
    decreases |entries|
  {
    if entries != [] {
      var here := GetOr(local, entries[0].0, []);
      var a := MatchEach(Flat(entries[0].1), field, tech, here, search);
      var b := MatchKeys(entries[1..], field, tech, local, search);
      MatchEachOffered(Flat(entries[0].1), field, tech, here, search);
      MatchKeysOffered(entries[1..], field, tech, local, search);
      if a.Success? && b.Success? {
        forall h | h in a.value + b.value
          ensures exists v :: KeyedOffer(Keyed(entries), local, h.pattern, v) && HitFor(h, tech, v, search)
        {
          if h in a.value {
            var v :| FlatOffer(Flat(entries[0].1), here, h.pattern, v) && HitFor(h, tech, v, search);
            assert KeyedOffer(Keyed(entries), local, h.pattern, v);
          } else {
            var v :| KeyedOffer(Keyed(entries[1..]), local, h.pattern, v) && HitFor(h, tech, v, search);
            var j :| 0 <= j < |entries[1..]| && h.pattern in entries[1..][j].1 && v in GetOr(local, entries[1..][j].0, []);
            assert entries[1..][j] == entries[j + 1];
            assert KeyedOffer(Keyed(entries), local, h.pattern, v);
          }
        }
      }
    }
  }

  /** A pattern declared under key `entries[j].0` that fires on a value supplied under that key yields its hit. */
  lemma {:induction false} MatchKeysComplete(entries: Dict<seq<Pattern>>, field: Field, tech: Technology, local: Dict<seq<string>>,
                                             search: SearchFn, j: nat, p: Pattern, v: string)
    requires j < |entries| && p in entries[j].1 && v in GetOr(local, entries[j].0, []) && Fires(p, v, search)
    requires MatchKeys(entries, field, tech, local, search).Success?
    ensures HitOf(p, tech, v, search) in MatchKeys(entries, field, tech, local, search).value
    decreases |entries|
  {
    if j == 0 {
      MatchEachComplete(entries[0].1, field, tech, GetOr(local, entries[0].0, []), search, p, v);
    } else {
      assert entries[1..][j - 1] == entries[j];
      MatchKeysComplete(entries[1..], field, tech, local, search, j - 1, p, v);
    }
  }

  lemma PairsOffered(tech: Technology, field: Field, pairs: Dict<seq<string>>, search: SearchFn)
    ensures var r := MatchPairs(tech, field, pairs, search);
      var local := if field == Cookies then LowerKeys(pairs) else pairs;
      r.Success? ==> forall h :: h in r.value ==> exists v :: KeyedOffer(tech.Patterns(field), local, h.pattern, v) && HitFor(h, tech, v, search)
  {
    var local := if field == Cookies then LowerKeys(pairs) else pairs;
    if tech.Patterns(field).Keyed? {
      var entries := tech.Patterns(field).entries;
      assert tech.Patterns(field) == Keyed(entries);
      assert MatchPairs(tech, field, pairs, search) == MatchKeys(entries, field, tech, local, search);
      MatchKeysOffered(entries, field, tech, local, search);
    }
  }

  /** Every hit of one field is a pattern of that field firing on a value offered to it. */
  lemma MatchFieldSound(tech: Technology, f: Field, s: Signals, search: SearchFn)
    ensures var r := MatchField(tech, f, s, search);
      r.Success? ==> forall h :: h in r.value ==> HitVia(h, tech, f, s, search)
  {
    var r := MatchField(tech, f, s, search);
    match f {
      case Url => PatternSetOffered(tech.url, Url, tech, s.url, search);
      case Html => PatternSetOffered(tech.html, Html, tech, s.html, search);
      case Scripts => MatchEachOffered(tech.scripts, Scripts, tech, s.scripts, search);
      case Headers => PairsOffered(tech, Headers, s.headers, search);
      case Cookies => PairsOffered(tech, Cookies, s.cookies, search);
      case Meta => PairsOffered(tech, Meta, s.metas, search);
      case Js => PairsOffered(tech, Js, s.jsVars, search);
    }
    if r.Success? {
      forall h | h in r.value ensures HitVia(h, tech, f, s, search) {
        if f == Url {
          assert Offered(tech, f, s, h.pattern, s.url);
        } else if f == Html {
          assert Offered(tech, f, s, h.pattern, s.html);
        } else {
          var v :| Offered(tech, f, s, h.pattern, v) && HitFor(h, tech, v, search);
        }
      }
    }
  }

  /** A pattern of a list field firing on the value given yields its hit. */
  lemma FlatComplete(ps: PatternSet, field: Field, tech: Technology, value: string, search: SearchFn, p: Pattern)
    requires ps.Flat? && p in ps.patterns && Fires(p, value, search)
    requires MatchPatternSet(ps, field, tech, value, search).Success?
    ensures HitOf(p, tech, value, search) in MatchPatternSet(ps, field, tech, value, search).value
  {
    MatchPatternsMeaning(ps.patterns, tech, value, search);
    FiringHit(MatchPatterns(ps.patterns, tech, value, search).value, ps.patterns, tech, value, search, p);
  }

  lemma PairsComplete(tech: Technology, field: Field, pairs: Dict<seq<string>>, search: SearchFn, p: Pattern, v: string)
    requires KeyedOffer(tech.Patterns(field), if field == Cookies then LowerKeys(pairs) else pairs, p, v) && Fires(p, v, search)
    requires MatchPairs(tech, field, pairs, search).Success?
    ensures HitOf(p, tech, v, search) in MatchPairs(tech, field, pairs, search).value
  {
    var local := if field == Cookies then LowerKeys(pairs) else pairs;
    var entries := tech.Patterns(field).entries;
    var j :| 0 <= j < |entries| && p in entries[j].1 && v in GetOr(local, entries[j].0, []);
    MatchKeysComplete(entries, field, tech, local, search, j, p, v);
  }

  /** A pattern of field `f` firing on a value offered to it yields its hit. */
  lemma MatchFieldComplete(tech: Technology, f: Field, s: Signals, search: SearchFn, p: Pattern, v: string)
    requires Offered(tech, f, s, p, v) && Fires(p, v, search)
    requires MatchField(tech, f, s, search).Success?
    ensures HitOf(p, tech, v, search) in MatchField(tech, f, s, search).value
  {
    match f
    case Url => FlatComplete(tech.url, Url, tech, s.url, search, p);
    case Html => FlatComplete(tech.html, Html, tech, s.html, search, p);
    case Scripts => MatchEachComplete(tech.scripts.patterns, Scripts, tech, s.scripts, search, p, v);
    case Headers => PairsComplete(tech, Headers, s.headers, search, p, v);
    case Cookies => PairsComplete(tech, Cookies, s.cookies, search, p, v);
    case Meta => PairsComplete(tech, Meta, s.metas, search, p, v);
    case Js => PairsComplete(tech, Js, s.jsVars, search, p, v);
  }

  lemma {:induction false} MatchFieldsSound(tech: Technology, fields: seq<Field>, s: Signals, search: SearchFn)
    ensures var r := MatchFields(tech, fields, s, search);
      r.Success? ==> forall h :: h in r.value ==> FromFields(h, tech, fields, s, search)
    decreases |fields|
  {
    if fields != [] {
      var a := MatchField(tech, fields[0], s, search);
      var b := MatchFields(tech, fields[1..], s, search);
      assert MatchFields(tech, fields, s, search) == Then(a, b);
      MatchFieldSound(tech, fields[0], s, search);
      MatchFieldsSound(tech, fields[1..], s, search);
      if a.Success? && b.Success? {
        FromFieldsConcat(a.value, b.value, tech, fields, s, search);
      }
    }
  }

  lemma FromFieldsConcat(a: seq<PatternMatch>, b: seq<PatternMatch>, tech: Technology, fields: seq<Field>, s: Signals, search: SearchFn)
    requires fields != []
    requires forall h :: h in a ==> HitVia(h, tech, fields[0], s, search)
    requires forall h :: h in b ==> FromFields(h, tech, fields[1..], s, search)
    ensures forall h :: h in a + b ==> FromFields(h, tech, fields, s, search)
  {
    forall h | h in a + b ensures FromFields(h, tech, fields, s, search) {
      if h in a {
        assert fields[0] in fields;
      } else {
        var f :| f in fields[1..] && HitVia(h, tech, f, s, search);
        assert f in fields;
      }
    }
  }

  lemma {:induction false} MatchFieldsComplete(tech: Technology, fields: seq<Field>, s: Signals, search: SearchFn,
                                               f: Field, p: Pattern, v: string)
    requires f in fields && Offered(tech, f, s, p, v) && Fires(p, v, search)
    requires MatchFields(tech, fields, s, search).Success?
    ensures HitOf(p, tech, v, search) in MatchFields(tech, fields, s, search).value
    decreases |fields|
  {
    if fields[0] == f {
      MatchFieldComplete(tech, f, s, search, p, v);
    } else {
      MatchFieldsComplete(tech, fields[1..], s, search, f, p, v);
    }
  }

  /**
   * Soundness of `match_all`: every hit is, for one of the technologies of
   * the dictionary and one supplied field, a pattern of that field firing
   * on a value offered to it, with the version its template resolves to.
   */
  lemma {:induction false} MatchAllSound(techs: Dict<Technology>, s: Signals, search: SearchFn)
    ensures var r := MatchAll(techs, s, search);
      r.Success? ==> forall h :: h in r.value ==> exists i :: 0 <= i < |techs| && FromFields(h, techs[i].1, FieldOrder(s), s, search)
    decreases |techs|
  {
    if techs != [] {
      var a := MatchFields(techs[0].1, FieldOrder(s), s, search);
      var b := MatchAll(techs[1..], s, search);
      MatchFieldsSound(techs[0].1, FieldOrder(s), s, search);
      MatchAllSound(techs[1..], s, search);
      if a.Success? && b.Success? {
        forall h | h in a.value + b.value ensures exists i :: 0 <= i < |techs| && FromFields(h, techs[i].1, FieldOrder(s), s, search) {
          if h in a.value {
            assert FromFields(h, techs[0].1, FieldOrder(s), s, search);
          } else {
            var i :| 0 <= i < |techs[1..]| && FromFields(h, techs[1..][i].1, FieldOrder(s), s, search);
            assert techs[1..][i] == techs[i + 1];
          }
        }
      }
    }
  }

  /**
   * Completeness of `match_all`: for every technology of the dictionary
   * and every supplied field, a pattern of that field firing on a value
   * offered to it yields its hit.
   */
  lemma MatchAllComplete(techs: Dict<Technology>, s: Signals, search: SearchFn, i: nat, f: Field, p: Pattern, v: string)
    requires i < |techs| && Supplied(s, f)
    requires Offered(techs[i].1, f, s, p, v) && Fires(p, v, search)
    requires MatchAll(techs, s, search).Success?
    ensures HitOf(p, techs[i].1, v, search) in MatchAll(techs, s, search).value
  {
    FieldOrderMeaning(s);
    HitOfOneIsHitOfAll(techs, s, search, i, HitOf(p, techs[i].1, v, search));
    MatchFieldsComplete(techs[i].1, FieldOrder(s), s, search, f, p, v);
  }

  /** A hit of one technology's fields is a hit of the whole dictionary. */
  lemma HitOfOneIsHitOfAll(techs: Dict<Technology>, s: Signals, search: SearchFn, i: nat, h: PatternMatch)
    requires i < |techs| && MatchAll(techs, s, search).Success?
    ensures MatchFields(techs[i].1, FieldOrder(s), s, search).Success?
    ensures h in MatchFields(techs[i].1, FieldOrder(s), s, search).value ==> h in MatchAll(techs, s, search).value
  {
    var pre := techs[..i];
    var mid := [techs[i]];
    var post := techs[i + 1..];
    assert techs == pre + mid + post;
    MatchAllAppend(pre + mid, post, s, search);
    MatchAllAppend(pre, mid, s, search);
    assert mid[1..] == [];
    assert MatchAll(mid, s, search) == Then(MatchFields(techs[i].1, FieldOrder(s), s, search), Success([]));
  }

  /** `discover_technologies` passes every input to `match_all` except `js_vars`. */
  function DiscoverSignals(url: string, html: string, scripts: seq<string>, cookies: Dict<seq<string>>,
                           metas: Dict<seq<string>>, headers: Dict<seq<string>>): (s: Signals)
    ensures !Supplied(s, Js)
  {
    Signals(url, headers, cookies, html, metas, scripts, [])
  }

  /** Patterns of the `js` field never fire from `discover_technologies`. */
  lemma DiscoverSkipsJs(url: string, html: string, scripts: seq<string>, cookies: Dict<seq<string>>,
                        metas: Dict<seq<string>>, headers: Dict<seq<string>>)
    ensures Js !in FieldOrder(DiscoverSignals(url, html, scripts, cookies, metas, headers))
  {
    FieldOrderMeaning(DiscoverSignals(url, html, scripts, cookies, metas, headers));
  }
}
