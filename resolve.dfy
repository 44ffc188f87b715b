/**
 * `resolve_techno_matches` and `discover_technologies`: the matcher's
 * hits deduplicated, folded per technology, expanded by implication and
 * cleared of exclusions.
 */
module Resolve {
  import opened Wrappers
  import opened Dicts
  import opened Structs
  import opened Matcher
  import opened Aggregate
  import opened Implies
  import opened Excludes

  /** Every hit is for a technology of the rule set. */
  ghost predicate FromRuleSet(hits: seq<PatternMatch>, techs: Dict<Technology>) {
    forall h :: h in hits ==> exists i :: 0 <= i < |techs| && techs[i].1 == h.technology
  }

  /** What the reported matches satisfy whatever the hits: one per name, no conflicts, bounded confidences and versions. */
  predicate WellFormed(tms: seq<TechMatch>) {
    && DistinctNames(tms)
    && ConflictFree(tms)
    && forall k :: 0 <= k < |tms| ==> tms[k].confidence <= 100 && |tms[k].version| <= 10
  }

  /**
   * `resolve_techno_matches(technologies, pattern_matches)` as a function:
   * the hits deduplicated, folded per technology, expanded by implication
   * and cleared of exclusions; an implication the rule set cannot resolve
   * is the failure.
   */
  function ResolveSpec(techs: Dict<Technology>, hits: seq<PatternMatch>): Result<seq<TechMatch>, Error> {
    match ResolveImpliesSpec(Extract(Dedup(hits)), techs)
    case Failure(e) => Failure(e)
    case Success(implied) => Success(ExcludeSpec(implied))
  }

  /**
   * The resolution reports distinct, conflict-free, bounded matches that
   * are the exclusion pass over an implication-closed expansion of the
   * folded hits; it fails only on an implication the rule set cannot
   * resolve, never for a rule set whose implications all resolve and hits
   * of its own technologies, and no hits give nothing reported.
   */
  lemma ResolveSpecOk(techs: Dict<Technology>, hits: seq<PatternMatch>)
    ensures var r := ResolveSpec(techs, hits);
      && (r.Success? ==> WellFormed(r.value))
      && (r.Success? ==> exists implied :: ResolvedOk(Extract(Dedup(hits)), techs, implied) && r.value == ExcludeSpec(implied))
      && (r.Failure? ==> r.error.MissingTechnology? && !HasKey(techs, r.error.name))
      && (RuleSetClosed(techs) && FromRuleSet(hits, techs) ==> r.Success?)
      && (hits == [] ==> r == Success([]))
  {
    var tms := Extract(Dedup(hits));
    ResolveImpliesOk(tms, techs);
    if RuleSetClosed(techs) && FromRuleSet(hits, techs) {
      ExtractKnown(techs, hits);
    }
    var implied := ResolveImpliesSpec(tms, techs);
    if implied.Success? {
      PipelineBounds(techs, Dedup(hits), implied.value);
    }
    if hits == [] {
      assert Dedup(hits) == [];
      assert tms == [];
      assert Trivial(tms);
    }
  }

  /** `resolve_techno_matches`, one stage after the other. */
  method ResolveTechnoMatches(techs: Dict<Technology>, hits: seq<PatternMatch>) returns (r: Result<seq<TechMatch>, Error>)
    ensures r == ResolveSpec(techs, hits)
  {
    var unique := Dedup(hits);
    var tms := ExtractTechnoMatches(unique);
    var implied := ResolveImplies(tms, techs);
    if implied.Failure? {
      return Failure(implied.error);
    }
    var kept := ResolveExcludes(implied.value);
    return Success(kept);
  }

  lemma ExtractKnown(techs: Dict<Technology>, hits: seq<PatternMatch>)
    requires RuleSetClosed(techs) && FromRuleSet(hits, techs)
    ensures var tms := Extract(Dedup(hits));
      forall i :: 0 <= i < |tms| ==> ImpliesKnown(tms[i].technology, techs)
  {
    var unique := Dedup(hits);
    DedupMeaning(hits, |hits|);
    assert hits[..|hits|] == hits;
    ExtractFacts(unique);
    var tms := Extract(unique);
    forall i | 0 <= i < |tms| ensures ImpliesKnown(tms[i].technology, techs) {
      var h :| h in unique && h.technology == tms[i].technology;
      var j :| 0 <= j < |techs| && techs[j].1 == h.technology;
      assert ImpliesKnown(techs[j].1, techs);
    }
  }

  lemma PipelineBounds(techs: Dict<Technology>, unique: seq<PatternMatch>, implied: seq<TechMatch>)
    requires ResolvedOk(Extract(unique), techs, implied)
    ensures WellFormed(ExcludeSpec(implied))
  {
    var tms := Extract(unique);
    ExtractFacts(unique);
    var kept := ExcludeSpec(implied);
    ExcludeSubseq(implied);
    SubseqMembers(kept, implied);
    SubseqDistinct(kept, implied);
    ExcludeConflictFree(implied);
    forall k | 0 <= k < |kept| ensures kept[k].confidence <= 100 && |kept[k].version| <= 10 {
      assert kept[k] in implied;
      var j :| 0 <= j < |implied| && implied[j] == kept[k];
      ResolvedConfidenceBound(tms, techs, implied, 100, j);
      ResolvedVersions(tms, techs, implied, j);
    }
  }

  /**
   * `discover_technologies(technologies, url, html, scripts, cookies,
   * metas, headers)`: `match_all` without JavaScript variables, then the
   * resolution of its hits. A rule set whose implications all resolve
   * fails only where the matcher does, and nothing observed gives nothing
   * reported.
   */
  method DiscoverTechnologies(techs: Dict<Technology>, url: string, html: string, scripts: seq<string>,
                              cookies: Dict<seq<string>>, metas: Dict<seq<string>>, headers: Dict<seq<string>>,
                              search: SearchFn) returns (r: Result<seq<TechMatch>, Error>)
    ensures r.Success? ==> WellFormed(r.value)
    ensures var hits := MatchAll(techs, DiscoverSignals(url, html, scripts, cookies, metas, headers), search);
      && (hits.Failure? ==> r == Failure(hits.error))
      && (hits.Success? ==> r == ResolveSpec(techs, hits.value))
      && (hits.Success? && RuleSetClosed(techs) ==> r.Success?)
    ensures url == "" && html == "" && scripts == [] && cookies == [] && metas == [] && headers == [] ==> r == Success([])
  {
    var signals := DiscoverSignals(url, html, scripts, cookies, metas, headers);
    var hits := MatchAll(techs, signals, search);
    if url == "" && html == "" && scripts == [] && cookies == [] && metas == [] && headers == [] {
      MatchAllNothingSupplied(techs, signals, search);
    }
    if hits.Failure? {
      return Failure(hits.error);
    }
    MatchAllTechnologies(techs, signals, search);
    ResolveSpecOk(techs, hits.value);
    r := ResolveTechnoMatches(techs, hits.value);
  }

  /** A technology with no patterns, only relations. */
  function Bare(name: string, implies: seq<Imply>, excludes: seq<Exclude>): Technology {
    Technology(name, [], Flat([]), Keyed([]), Keyed([]), Flat([]), Keyed([]), Flat([]), Keyed([]), implies, excludes)
  }

  /** A rule set where `A` implies `B` and `C`, and `B` implies `C` at 10 and excludes it. */
  function TechA(): Technology { Bare("A", [Imply("B", 100), Imply("C", 100)], []) }
  function TechB(): Technology { Bare("B", [Imply("C", 10)], [Exclude("C")]) }
  function TechC(): Technology { Bare("C", [], []) }
  function ExampleRules(): Dict<Technology> { [("A", TechA()), ("B", TechB()), ("C", TechC())] }

  lemma ExampleLookups()
    ensures Get(ExampleRules(), "B") == Some(TechB()) && Get(ExampleRules(), "C") == Some(TechC())
  {
    var rules := ExampleRules();
    assert rules[1..] == [("B", TechB()), ("C", TechC())];
    assert rules[1..][1..] == [("C", TechC())];
    assert Get(rules[1..][1..], "C") == Some(TechC());
    assert Get(rules[1..], "C") == Some(TechC());
  }

  lemma ExampleImpliedA()
    ensures ImpliedUpTo(ExampleRules(), TechMatch(TechA(), 50, ""), 2) == Success([TechMatch(TechB(), 50, ""), TechMatch(TechC(), 50, "")])
  {
    ExampleLookups();
    var rules := ExampleRules();
    var a := TechMatch(TechA(), 50, "");
    assert a.technology.implies == [Imply("B", 100), Imply("C", 100)];
    var ra := ImpliedUpTo(rules, a, 2);
    assert HasKey(rules, "B") && HasKey(rules, "C");
    assert ra.Success?;
    assert ImpliedBy(rules, a, 0, ra.value[0]) && ImpliedBy(rules, a, 1, ra.value[1]);
    assert ra.value[0] == TechMatch(TechB(), 50, "");
    assert ra.value[1] == TechMatch(TechC(), 50, "");
    assert ra.value == [TechMatch(TechB(), 50, ""), TechMatch(TechC(), 50, "")];
  }

  lemma ExampleImpliedB()
    ensures ImpliedUpTo(ExampleRules(), TechMatch(TechB(), 50, ""), 1) == Success([TechMatch(TechC(), 10, "")])
  {
    ExampleLookups();
    var rules := ExampleRules();
    var b := TechMatch(TechB(), 50, "");
    assert b.technology.implies == [Imply("C", 10)];
    var rb := ImpliedUpTo(rules, b, 1);
    assert HasKey(rules, "C");
    assert rb.Success?;
    assert ImpliedBy(rules, b, 0, rb.value[0]);
    assert rb.value[0] == TechMatch(TechC(), 10, "");
    assert rb.value == [TechMatch(TechC(), 10, "")];
  }

  /** The visit of `B` under `A`: `B` at 50, then its `C` at 10. */
  lemma ExampleVisitB()
    ensures var a, b := TechMatch(TechA(), 50, ""), TechMatch(TechB(), 50, "");
      VisitSpec([a], b, ExampleRules()) == Success([a, b, TechMatch(TechC(), 10, "")])
  {
    var rules := ExampleRules();
    var a, b50, c10 := TechMatch(TechA(), 50, ""), TechMatch(TechB(), 50, ""), TechMatch(TechC(), 10, "");
    ExampleImpliedB();
    ExampleLookups();
    assert ImpliedUpTo(rules, c10, |c10.technology.implies|) == Success([]);
    VisitChain(a, b50, c10, rules);
  }

  /** Under a listed `a`, a visit of `b` whose one child `c` implies nothing lists `a`, `b`, `c`. */
  lemma VisitChain(a: TechMatch, b: TechMatch, c: TechMatch, rules: Dict<Technology>)
    requires a.technology.name != b.technology.name
    requires c.technology.name != a.technology.name && c.technology.name != b.technology.name
    requires ImpliedUpTo(rules, b, |b.technology.implies|) == Success([c])
    requires ImpliedUpTo(rules, c, |c.technology.implies|) == Success([])
    ensures VisitSpec([a], b, rules) == Success([a, b, c])
  {
    var s := [a, b, c];
    NamesSnoc([], a);
    assert [] + [a] == [a];
    NamesSnoc([a], b);
    assert [a] + [b] == [a, b];
    VisitEnters([a], b, rules, [c]);
    VisitEnters([a, b], c, rules, []);
    assert [a, b] + [c] == s;
    assert VisitChildren(s, [], 0, rules) == Success(s);
    ChildStep([a, b], [c], 0, rules, s);
    assert VisitChildren(s, [c], 1, rules) == Success(s);
  }

  /** The visit of `A`: its children `B` at 50, which brings `C` at 10, and `C` at 50, already listed. */
  lemma ExampleVisitA()
    ensures var a := TechMatch(TechA(), 50, "");
      VisitSpec([], a, ExampleRules()) == Success([a, TechMatch(TechB(), 50, ""), TechMatch(TechC(), 10, "")])
  {
    var rules := ExampleRules();
    var a, b50, c50, c10 := TechMatch(TechA(), 50, ""), TechMatch(TechB(), 50, ""), TechMatch(TechC(), 50, ""), TechMatch(TechC(), 10, "");
    var s := [a, b50, c10];
    ExampleImpliedA();
    assert NamesOf([]) == {};
    VisitEnters([], a, rules, [b50, c50]);
    assert [] + [a] == [a];
    ExampleVisitB();
    ChildStep([a], [b50, c50], 0, rules, s);
    assert "C" in NamesOf(s) by { assert s[2] == c10; }
    assert VisitSpec(s, c50, rules) == Success(s);
    ChildStep(s, [b50, c50], 1, rules, s);
    assert VisitChildren(s, [b50, c50], 2, rules) == Success(s);
  }

  /**
   * Implication is depth first and an entry keeps the confidence of its
   * first visit: a hit on `A` at 50 in the rule set above lists `A`, `B`
   * at 50, then `C` at 10 (reached through `B` before `A`'s own `C` at
   * 50), and the exclusion pass then drops `C`.
   */
  lemma DepthFirstOrder()
    ensures var a := TechMatch(TechA(), 50, "");
      && ResolveImpliesSpec([a], ExampleRules()) == Success([a, TechMatch(TechB(), 50, ""), TechMatch(TechC(), 10, "")])
      && ExcludeSpec([a, TechMatch(TechB(), 50, ""), TechMatch(TechC(), 10, "")]) == [a, TechMatch(TechB(), 50, "")]
  {
    ExampleResolveA();
    ExampleExcludeC();
  }

  /** The loop of `resolve_implies` over the single hit on `A`. */
  lemma ExampleResolveA()
    ensures var a := TechMatch(TechA(), 50, "");
      ResolveImpliesSpec([a], ExampleRules()) == Success([a, TechMatch(TechB(), 50, ""), TechMatch(TechC(), 10, "")])
  {
    var rules := ExampleRules();
    var a, b50, c10 := TechMatch(TechA(), 50, ""), TechMatch(TechB(), 50, ""), TechMatch(TechC(), 10, "");
    var s := [a, b50, c10];
    ExampleVisitA();
    assert ResolveFrom(s, [a], 1, rules) == Success(s);
  }

  /** `B` excludes `C`, so the exclusion pass keeps `A` and `B`. */
  lemma ExampleExcludeC()
    ensures var a := TechMatch(TechA(), 50, "");
      ExcludeSpec([a, TechMatch(TechB(), 50, ""), TechMatch(TechC(), 10, "")]) == [a, TechMatch(TechB(), 50, "")]
  {
    var a, b50, c10 := TechMatch(TechA(), 50, ""), TechMatch(TechB(), 50, ""), TechMatch(TechC(), 10, "");
    assert ExcludedNames(TechB()) == ["C"];
    assert Without([c10], ["C"]) == [];
    assert [b50, c10][1..] == [c10];
    assert ExcludeSpec([b50, c10]) == [b50] + ExcludeSpec(Without([c10], ["C"]));
    assert ExcludedNames(TechA()) == [];
    assert Without([b50, c10], []) == [b50, c10];
    assert [a, b50, c10][1..] == [b50, c10];
    assert ExcludeSpec([a, b50, c10]) == [a] + ExcludeSpec(Without([b50, c10], []));
  }
}
