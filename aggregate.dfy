/**
 * From pattern hits to technology matches: the set deduplication of the
 * hits, and `extract_techno_matches`, which folds the hits of each
 * technology into one match with a clamped confidence and one version.
 */
module Aggregate {
  import opened Structs

  // ---------------------------------------------------------------------
  // list(set(pattern_matches))

  /** Some hit among `hs` has the tuple `PatternMatch.__hash__` hashes. */
  predicate KeyIn(key: HitKey, hs: seq<PatternMatch>) {
    exists k :: 0 <= k < |hs| && KeyOf(hs[k]) == key
  }

  /**
   * A set built from the first `n` hits: a hit is kept unless one with the
   * same (name, key, value) tuple is already in (`SetMerges`). The order a
   * Python set iterates in is not modelled; this keeps the hits in the
   * order of their first arrival.
   */
  function DedupUpTo(hits: seq<PatternMatch>, n: nat): seq<PatternMatch>
    requires n <= |hits|
  {
    if n == 0 then []
    else
      var prev := DedupUpTo(hits, n - 1);
      if KeyIn(KeyOf(hits[n - 1]), prev) then prev else prev + [hits[n - 1]]
  }

  function Dedup(hits: seq<PatternMatch>): seq<PatternMatch> {
    DedupUpTo(hits, |hits|)
  }

  predicate DistinctHitKeys(hs: seq<PatternMatch>) {
    forall i, j :: 0 <= i < j < |hs| ==> KeyOf(hs[i]) != KeyOf(hs[j])
  }

  /** The set keeps one hit per tuple: the tuples kept are exactly those of the hits, each once, and every kept hit is one of the hits. */
  lemma {:induction false} DedupMeaning(hits: seq<PatternMatch>, n: nat)
    requires n <= |hits|
    ensures var d := DedupUpTo(hits, n);
      && DistinctHitKeys(d)
      && (forall key :: KeyIn(key, d) <==> KeyIn(key, hits[..n]))
      && (forall h :: h in d ==> h in hits[..n])
  {
    if n > 0 {
      DedupMeaning(hits, n - 1);
      var prev := DedupUpTo(hits, n - 1);
      var h := hits[n - 1];
      assert hits[..n] == hits[..n - 1] + [h];
      forall key ensures KeyIn(key, hits[..n]) <==> KeyIn(key, hits[..n - 1]) || KeyOf(h) == key {
        KeyInAppend(hits[..n - 1], h, key);
      }
      if !KeyIn(KeyOf(h), prev) {
        forall key ensures KeyIn(key, prev + [h]) <==> KeyIn(key, prev) || KeyOf(h) == key {
          KeyInAppend(prev, h, key);
        }
        forall i, j | 0 <= i < j < |prev + [h]| ensures KeyOf((prev + [h])[i]) != KeyOf((prev + [h])[j]) {
          if j == |prev| {
            assert (prev + [h])[i] == prev[i];
          } else {
            assert (prev + [h])[i] == prev[i] && (prev + [h])[j] == prev[j];
          }
        }
      }
    }
  }

  lemma KeyInAppend(hs: seq<PatternMatch>, h: PatternMatch, key: HitKey)
    ensures KeyIn(key, hs + [h]) <==> KeyIn(key, hs) || KeyOf(h) == key
  {
    if KeyIn(key, hs + [h]) {
      var k :| 0 <= k < |hs| + 1 && KeyOf((hs + [h])[k]) == key;
      if k < |hs| {
        assert KeyOf(hs[k]) == key;
      }
    }
    if KeyIn(key, hs) {
      var k :| 0 <= k < |hs| && KeyOf(hs[k]) == key;
      assert KeyOf((hs + [h])[k]) == key;
    }
    if KeyOf(h) == key {
      assert KeyOf((hs + [h])[|hs|]) == key;
    }
  }

  // ---------------------------------------------------------------------
  // extract_techno_matches

  /** `pattern_match in techno_matches`: both `__eq__` compare technology names only. */
  predicate Listed(name: string, tms: seq<TechMatch>) {
    exists k :: 0 <= k < |tms| && tms[k].technology.name == name
  }

  /** `min(100, confidence + c)`. */
  function AddConfidence(acc: int, c: int): int {
    if acc + c < 100 then acc + c else 100
  }

  /** The running confidence after the first `n` hits, counting those named `name`. */
  function ConfidenceUpTo(hits: seq<PatternMatch>, name: string, n: nat): int
    requires n <= |hits|
  {
    if n == 0 then 0
    else
      var acc := ConfidenceUpTo(hits, name, n - 1);
      if hits[n - 1].technology.name == name then AddConfidence(acc, hits[n - 1].pattern.confidence) else acc
  }

  /** `pt_match.version if len(version) < len(pt_match.version) <= 10 else version`. */
  function PickVersion(version: string, candidate: string): string {
    if |version| < |candidate| <= 10 then candidate else version
  }

  /** The running version after the first `n` hits, counting those named `name`. */
  function VersionUpTo(hits: seq<PatternMatch>, name: string, n: nat): string
    requires n <= |hits|
  {
    if n == 0 then ""
    else
      var v := VersionUpTo(hits, name, n - 1);
      if hits[n - 1].technology.name == name then PickVersion(v, hits[n - 1].version) else v
  }

  /** The match emitted for the first hit of a technology, from all hits of that technology. */
  function Aggregated(hits: seq<PatternMatch>, h: PatternMatch): TechMatch {
    var name := h.technology.name;
    TechMatch(h.technology, ConfidenceUpTo(hits, name, |hits|), VersionUpTo(hits, name, |hits|))
  }

  /** The outer loop after the first `n` hits. */
  function ExtractUpTo(hits: seq<PatternMatch>, n: nat): seq<TechMatch>
    requires n <= |hits|
  {
    if n == 0 then []
    else
      var prev := ExtractUpTo(hits, n - 1);
      var h := hits[n - 1];
      if Listed(h.technology.name, prev) then prev else prev + [Aggregated(hits, h)]
  }

  function Extract(hits: seq<PatternMatch>): seq<TechMatch> {
    ExtractUpTo(hits, |hits|)
  }

  /** `extract_techno_matches(pattern_matches)`, with its two nested loops. */
  method ExtractTechnoMatches(hits: seq<PatternMatch>) returns (tms: seq<TechMatch>)
    ensures tms == Extract(hits)
  {
    tms := [];
    for i := 0 to |hits|
      invariant tms == ExtractUpTo(hits, i)
    {
      var h := hits[i];
      if !Listed(h.technology.name, tms) {
        var version := "";
        var confidence := 0;
        for j := 0 to |hits|
          invariant confidence == ConfidenceUpTo(hits, h.technology.name, j)
          invariant version == VersionUpTo(hits, h.technology.name, j)
        {
          var pt := hits[j];
          if pt.technology.name != h.technology.name {
            continue;
          }
          confidence := if confidence + pt.pattern.confidence < 100 then confidence + pt.pattern.confidence else 100;
          version := if |version| < |pt.version| <= 10 then pt.version else version;
        }
        tms := tms + [TechMatch(h.technology, confidence, version)];
      }
    }
  }

  /** The `i`-th hit is the first hit of its technology. */
  predicate FirstOfName(hits: seq<PatternMatch>, i: nat)
    requires i < |hits|
  {
    forall j :: 0 <= j < i ==> hits[j].technology.name != hits[i].technology.name
  }

  /** Reference reading: the first hit of each technology, in order of appearance. */
  function FirstsUpTo(hits: seq<PatternMatch>, n: nat): seq<PatternMatch>
    requires n <= |hits|
  {
    if n == 0 then []
    else FirstsUpTo(hits, n - 1) + (if FirstOfName(hits, n - 1) then [hits[n - 1]] else [])
  }

  function AggregateAll(hits: seq<PatternMatch>, firsts: seq<PatternMatch>): (r: seq<TechMatch>)
    ensures |r| == |firsts|
    ensures forall k :: 0 <= k < |firsts| ==> r[k] == Aggregated(hits, firsts[k])
  {
    seq(|firsts|, k requires 0 <= k < |firsts| => Aggregated(hits, firsts[k]))
  }

  predicate DistinctNames(tms: seq<TechMatch>) {
    forall i, j :: 0 <= i < j < |tms| ==> tms[i].technology.name != tms[j].technology.name
  }

  /** Some hit among the first `n` has technology `x`. */
  predicate NamedIn(x: string, hits: seq<PatternMatch>, n: nat)
    requires n <= |hits|
  {
    exists i :: 0 <= i < n && hits[i].technology.name == x
  }

  /** A name is listed exactly when some hit has it, and no name is listed twice. */
  lemma {:induction false} ExtractNames(hits: seq<PatternMatch>, n: nat)
    requires n <= |hits|
    ensures forall x :: Listed(x, ExtractUpTo(hits, n)) <==> NamedIn(x, hits, n)
    ensures DistinctNames(ExtractUpTo(hits, n))
  {
    if n > 0 {
      ExtractNames(hits, n - 1);
      var prev := ExtractUpTo(hits, n - 1);
      var h := hits[n - 1];
      var x := h.technology.name;
      if !Listed(x, prev) {
        var next := prev + [Aggregated(hits, h)];
        forall y ensures Listed(y, next) <==> Listed(y, prev) || y == x {
          ListedAppend(prev, Aggregated(hits, h), y);
        }
        forall i, j | 0 <= i < j < |next| ensures next[i].technology.name != next[j].technology.name {
          assert next[i] == prev[i];
          if j < |prev| {
            assert next[j] == prev[j];
          }
        }
      }
      forall y ensures NamedIn(y, hits, n) <==> NamedIn(y, hits, n - 1) || y == x {
        if y == x {
          assert hits[n - 1].technology.name == y;
        }
      }
    }
  }

  /**
   * One match per technology: the matches are the aggregates of the first
   * hit of each technology, in order of first appearance.
   */
  lemma {:induction false} ExtractIsFirsts(hits: seq<PatternMatch>, n: nat)
    requires n <= |hits|
    ensures ExtractUpTo(hits, n) == AggregateAll(hits, FirstsUpTo(hits, n))
  {
    if n > 0 {
      ExtractIsFirsts(hits, n - 1);
      var prev := ExtractUpTo(hits, n - 1);
      var h := hits[n - 1];
      assert FirstOfName(hits, n - 1) <==> !Listed(h.technology.name, prev) by {
        ExtractNames(hits, n - 1);
        FirstIffUnlisted(hits, n - 1, prev);
      }
      var firsts := FirstsUpTo(hits, n - 1);
      if Listed(h.technology.name, prev) {
        assert FirstsUpTo(hits, n) == firsts + [];
        assert firsts + [] == firsts;
      } else {
        assert FirstsUpTo(hits, n) == firsts + [h];
        AggregateAllAppend(hits, firsts, h);
      }
    }
  }

  lemma AggregateAllAppend(hits: seq<PatternMatch>, firsts: seq<PatternMatch>, h: PatternMatch)
    ensures AggregateAll(hits, firsts + [h]) == AggregateAll(hits, firsts) + [Aggregated(hits, h)]
  {
  }

  lemma FirstIffUnlisted(hits: seq<PatternMatch>, i: nat, prev: seq<TechMatch>)
    requires i < |hits|
    requires forall x :: Listed(x, prev) <==> NamedIn(x, hits, i)
    ensures FirstOfName(hits, i) <==> !Listed(hits[i].technology.name, prev)
  {
  }

  lemma ListedAppend(tms: seq<TechMatch>, t: TechMatch, x: string)
    ensures Listed(x, tms + [t]) <==> Listed(x, tms) || t.technology.name == x
  {
    if Listed(x, tms + [t]) {
      var k :| 0 <= k < |tms| + 1 && (tms + [t])[k].technology.name == x;
      if k < |tms| {
        assert tms[k].technology.name == x;
      }
    }
    if Listed(x, tms) {
      var k :| 0 <= k < |tms| && tms[k].technology.name == x;
      assert (tms + [t])[k].technology.name == x;
    }
    if t.technology.name == x {
      assert (tms + [t])[|tms|].technology.name == x;
    }
  }

  /** The confidence never exceeds 100, and is never negative when no hit of that technology has a negative confidence. */
  lemma {:induction false} ConfidenceBounds(hits: seq<PatternMatch>, name: string, n: nat)
    requires n <= |hits|
    ensures ConfidenceUpTo(hits, name, n) <= 100
    ensures (forall j :: 0 <= j < n && hits[j].technology.name == name ==> hits[j].pattern.confidence >= 0)
            ==> ConfidenceUpTo(hits, name, n) >= 0
  {
    if n > 0 {
      ConfidenceBounds(hits, name, n - 1);
    }
  }

  /** The sum of the confidences of the hits named `name` among the first `n`. */
  function ConfidenceSum(hits: seq<PatternMatch>, name: string, n: nat): int
    requires n <= |hits|
  {
    if n == 0 then 0
    else ConfidenceSum(hits, name, n - 1) + (if hits[n - 1].technology.name == name then hits[n - 1].pattern.confidence else 0)
  }

  /** With non-negative confidences the stepwise clamp is the clamp of the sum. */
  lemma {:induction false} ConfidenceIsClampedSum(hits: seq<PatternMatch>, name: string, n: nat)
    requires n <= |hits|
    requires forall j :: 0 <= j < n && hits[j].technology.name == name ==> hits[j].pattern.confidence >= 0
    ensures ConfidenceUpTo(hits, name, n) == if ConfidenceSum(hits, name, n) < 100 then ConfidenceSum(hits, name, n) else 100
  {
    if n > 0 {
      ConfidenceIsClampedSum(hits, name, n - 1);
    }
  }

  /**
   * A negative confidence after the running total has passed 100 lowers it
   * from the clamp, not from the sum: the stepwise clamp ends below the
   * clamp of the sum.
   */
  lemma ClampIsStepwise(hits: seq<PatternMatch>, name: string, n: nat)
    requires n < |hits|
    requires forall j :: 0 <= j < n && hits[j].technology.name == name ==> hits[j].pattern.confidence >= 0
    requires ConfidenceSum(hits, name, n) > 100
    requires hits[n].technology.name == name && hits[n].pattern.confidence < 0
    ensures ConfidenceUpTo(hits, name, n + 1) == 100 + hits[n].pattern.confidence
    ensures ConfidenceUpTo(hits, name, n + 1) < if ConfidenceSum(hits, name, n + 1) < 100 then ConfidenceSum(hits, name, n + 1) else 100
  {
    ConfidenceIsClampedSum(hits, name, n);
  }

  /** A hit named `name` among the first `n` whose version is at most ten characters long. */
  predicate Candidate(hits: seq<PatternMatch>, name: string, j: nat) {
    j < |hits| && hits[j].technology.name == name && |hits[j].version| <= 10
  }

  /**
   * The version kept is at most ten characters long, no candidate is
   * longer, and a non-empty one is the version of the first candidate of
   * that length.
   */
  lemma {:induction false} VersionChoice(hits: seq<PatternMatch>, name: string, n: nat)
    requires n <= |hits|
    ensures var v := VersionUpTo(hits, name, n);
      && |v| <= 10
      && (forall j :: 0 <= j < n && Candidate(hits, name, j) ==> |hits[j].version| <= |v|)
      && (v != "" ==> exists j :: 0 <= j < n && Candidate(hits, name, j) && hits[j].version == v
                                && forall j' :: 0 <= j' < j && Candidate(hits, name, j') ==> |hits[j'].version| < |v|)
  {
    if n > 0 {
      VersionChoice(hits, name, n - 1);
      var prev := VersionUpTo(hits, name, n - 1);
      var v := VersionUpTo(hits, name, n);
      if v != prev {
        assert Candidate(hits, name, n - 1) && hits[n - 1].version == v;
        assert forall j' :: 0 <= j' < n - 1 && Candidate(hits, name, j') ==> |hits[j'].version| < |v|;
      }
    }
  }

  lemma {:induction false} FirstsMembers(hits: seq<PatternMatch>, n: nat)
    requires n <= |hits|
    ensures forall h :: h in FirstsUpTo(hits, n) ==> h in hits
  {
    if n > 0 {
      FirstsMembers(hits, n - 1);
    }
  }

  /** Each match is for the technology of some hit, with a confidence of at most 100 and a version of at most ten characters. */
  lemma ExtractFacts(hits: seq<PatternMatch>)
    ensures forall k :: 0 <= k < |Extract(hits)| ==>
      && (exists h :: h in hits && h.technology == Extract(hits)[k].technology)
      && Extract(hits)[k].confidence <= 100
      && |Extract(hits)[k].version| <= 10
  {
    ExtractIsFirsts(hits, |hits|);
    FirstsMembers(hits, |hits|);
    var firsts := FirstsUpTo(hits, |hits|);
    forall k | 0 <= k < |Extract(hits)|
      ensures exists h :: h in hits && h.technology == Extract(hits)[k].technology
      ensures Extract(hits)[k].confidence <= 100
      ensures |Extract(hits)[k].version| <= 10
    {
      var name := firsts[k].technology.name;
      assert firsts[k] in firsts;
      ConfidenceBounds(hits, name, |hits|);
      VersionChoice(hits, name, |hits|);
    }
  }

  /**
   * Two patterns of one technology firing give one match, whose
   * confidence is their clamped sum: `__eq__` ignores which pattern fired.
   */
  lemma TwoPatternsOneMatch(t: Technology, p: Pattern, q: Pattern, v: string, w: string)
    requires p.confidence == 50 && q.confidence == 70
    ensures var hits := [PatternMatch(t, p, v), PatternMatch(t, q, w)];
      Extract(hits) == [TechMatch(t, 100, PickVersion(PickVersion("", v), w))]
  {
    var hits := [PatternMatch(t, p, v), PatternMatch(t, q, w)];
    assert ConfidenceUpTo(hits, t.name, 1) == 50;
    assert ConfidenceUpTo(hits, t.name, 2) == 100;
    assert VersionUpTo(hits, t.name, 1) == PickVersion("", v);
    assert VersionUpTo(hits, t.name, 2) == PickVersion(PickVersion("", v), w);
    assert ExtractUpTo(hits, 1) == [Aggregated(hits, hits[0])];
    assert Listed(t.name, ExtractUpTo(hits, 1)) by {
      assert ExtractUpTo(hits, 1)[0].technology.name == t.name;
    }
  }

  /** The same rule firing on two values (two values of one cookie, say) is kept once by the set, so it counts once. */
  lemma SameRuleCountsOnce(t: Technology, p: Pattern, v: string, w: string)
    requires 0 <= p.confidence
    ensures Dedup([PatternMatch(t, p, v), PatternMatch(t, p, w)]) == [PatternMatch(t, p, v)]
    ensures Extract([PatternMatch(t, p, v)]) == [TechMatch(t, AddConfidence(0, p.confidence), PickVersion("", v))]
  {
    var hits := [PatternMatch(t, p, v), PatternMatch(t, p, w)];
    assert DedupUpTo(hits, 1) == [hits[0]];
    assert KeyIn(KeyOf(hits[1]), DedupUpTo(hits, 1)) by {
      assert KeyOf(DedupUpTo(hits, 1)[0]) == KeyOf(hits[1]);
    }
    var one := [PatternMatch(t, p, v)];
    assert ConfidenceUpTo(one, t.name, 1) == AddConfidence(0, p.confidence);
    assert VersionUpTo(one, t.name, 1) == PickVersion("", v);
    assert ExtractUpTo(one, 1) == [Aggregated(one, one[0])];
  }
}
