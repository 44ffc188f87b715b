/**
 * `resolve_implies` and `_resolve_implies_inner`: the technology matches,
 * expanded by everything they imply, transitively and with each
 * technology name at most once.
 */
module Implies {
  import opened Wrappers
  import opened Dicts
  import opened Structs
  import opened Aggregate

  /** The technology names in a list of matches: what `techno_match not in techno_impls` tests against. */
  function NamesOf(s: seq<TechMatch>): set<string> {
    set k | 0 <= k < |s| :: s[k].technology.name
  }

  /** The names of the technologies of the rule set. */
  function ValueNames(techs: Dict<Technology>): set<string> {
    set k | 0 <= k < |techs| :: techs[k].1.name
  }

  /** The match `_resolve_implies_inner` builds for `imply` under `parent`: no version, and the lower of the two confidences. */
  function Implied(techs: Dict<Technology>, imply: Imply, parent: TechMatch): TechMatch
    requires HasKey(techs, imply.name)
  {
    TechMatch(Get(techs, imply.name).value, if parent.confidence < imply.confidence then parent.confidence else imply.confidence, "")
  }

  /** `child` is what the `m`-th implication of `parent` resolves to. */
  predicate ImpliedBy(techs: Dict<Technology>, parent: TechMatch, m: nat, child: TechMatch) {
    && m < |parent.technology.implies|
    && HasKey(techs, parent.technology.implies[m].name)
    && child == Implied(techs, parent.technology.implies[m], parent)
  }

  predicate Extends(s: seq<TechMatch>, p: seq<TechMatch>) {
    |p| <= |s| && s[..|p|] == p
  }

  /** Every implication of an entry from index `b` on names a technology of the rule set that is in `s`. */
  predicate ClosedFrom(s: seq<TechMatch>, b: nat, techs: Dict<Technology>) {
    forall k, m :: b <= k < |s| && 0 <= m < |s[k].technology.implies| ==>
      && HasKey(techs, s[k].technology.implies[m].name)
      && Get(techs, s[k].technology.implies[m].name).value.name in NamesOf(s)
  }

  /** The entry at `k` was implied by an earlier entry at index `b` or later. */
  ghost predicate HasParent(s: seq<TechMatch>, b: nat, k: nat, techs: Dict<Technology>)
    requires k < |s|
  {
    exists j, m :: b <= j < k && ImpliedBy(techs, s[j], m, s[k])
  }

  /** Every entry after index `b` was implied by an earlier entry from `b` on. */
  ghost predicate DerivedFrom(s: seq<TechMatch>, b: nat, techs: Dict<Technology>) {
    forall k :: b < k < |s| ==> HasParent(s, b, k, techs)
  }

  /** Every implication of `t` names a technology of the rule set. */
  predicate ImpliesKnown(t: Technology, techs: Dict<Technology>) {
    forall m :: 0 <= m < |t.implies| ==> HasKey(techs, t.implies[m].name)
  }

  predicate RuleSetClosed(techs: Dict<Technology>) {
    forall i :: 0 <= i < |techs| ==> ImpliesKnown(techs[i].1, techs)
  }

  /** What one visit of `tm` leaves behind in `s`, starting from `impls`. */
  ghost predicate VisitOk(impls: seq<TechMatch>, tm: TechMatch, techs: Dict<Technology>, s: seq<TechMatch>) {
    && Extends(s, impls)
    && DistinctNames(s)
    && tm.technology.name in NamesOf(s)
    && (tm.technology.name in NamesOf(impls) ==> s == impls)
    && (tm.technology.name !in NamesOf(impls) ==> |s| > |impls| && s[|impls|] == tm)
    && ClosedFrom(s, |impls|, techs)
    && DerivedFrom(s, |impls|, techs)
  }

  /**
   * `_resolve_implies_inner(techno_impls, techno_match, technologies)` as a
   * function of the shared list: a technology already listed by name stops
   * the visit; otherwise the match is appended, all its implied matches are
   * built (the first unknown name fails), and each is visited in turn,
   * depth first. Each visit that goes on lists one more name of the rule
   * set, which is what makes it terminate on cyclic implications.
   */
  function VisitSpec(impls: seq<TechMatch>, tm: TechMatch, techs: Dict<Technology>): (r: Result<seq<TechMatch>, Error>)
    decreases |(ValueNames(techs) + {tm.technology.name}) - NamesOf(impls)|, 0, 0
    ensures r.Success? ==> Extends(r.value, impls)
  {
    if tm.technology.name in NamesOf(impls) then Success(impls)
    else
      match ImpliedUpTo(techs, tm, |tm.technology.implies|)
      case Failure(e) => Failure(e)
      case Success(implied) =>
        ImpliedNamesKnown(techs, tm, implied);
        NamesSnoc(impls, tm);
        EnterMeasure(ValueNames(techs), tm.technology.name, NamesOf(impls));
        var r := VisitChildren(impls + [tm], implied, 0, techs);
        if r.Success? then (ExtendsSnoc(impls, tm); ExtendsTrans(r.value, impls + [tm], impls); r) else r
  }

  /** The loop `for implied_techno in implies` from index `i` on, threading the shared list. */
  function VisitChildren(acc: seq<TechMatch>, implied: seq<TechMatch>, i: nat, techs: Dict<Technology>): (r: Result<seq<TechMatch>, Error>)
    requires i <= |implied|
    requires forall m :: 0 <= m < |implied| ==> implied[m].technology.name in ValueNames(techs)
    decreases |ValueNames(techs) - NamesOf(acc)|, 1, |implied| - i
    ensures r.Success? ==> Extends(r.value, acc)
  {
    if i == |implied| then Success(acc)
    else
      assert ValueNames(techs) + {implied[i].technology.name} == ValueNames(techs);
      match VisitSpec(acc, implied[i], techs)
      case Failure(e) => Failure(e)
      case Success(s) =>
        ExtendsNames(s, acc);
        ShrinkMeasure(ValueNames(techs), NamesOf(acc), NamesOf(s));
        var r := VisitChildren(s, implied, i + 1, techs);
        if r.Success? then (ExtendsTrans(r.value, s, acc); r) else r
  }

  /** A visit of an unlisted match appends it and continues with the children it implies. */
  lemma VisitEnters(impls: seq<TechMatch>, tm: TechMatch, techs: Dict<Technology>, implied: seq<TechMatch>)
    requires tm.technology.name !in NamesOf(impls)
    requires ImpliedUpTo(techs, tm, |tm.technology.implies|) == Success(implied)
    ensures forall m :: 0 <= m < |implied| ==> implied[m].technology.name in ValueNames(techs)
    ensures VisitSpec(impls, tm, techs) == VisitChildren(impls + [tm], implied, 0, techs)
  {
    ImpliedNamesKnown(techs, tm, implied);
  }

  /** One child of the loop over implied matches, visited with result `t`. */
  lemma ChildStep(acc: seq<TechMatch>, implied: seq<TechMatch>, i: nat, techs: Dict<Technology>, t: seq<TechMatch>)
    requires i < |implied|
    requires forall m :: 0 <= m < |implied| ==> implied[m].technology.name in ValueNames(techs)
    requires VisitSpec(acc, implied[i], techs) == Success(t)
    ensures VisitChildren(acc, implied, i, techs) == VisitChildren(t, implied, i + 1, techs)
  {
  }

  /** The loop of `resolve_implies` from the `i`-th match on, threading the shared list. */
  function ResolveFrom(impls: seq<TechMatch>, tms: seq<TechMatch>, i: nat, techs: Dict<Technology>): Result<seq<TechMatch>, Error>
    requires i <= |tms|
    decreases |tms| - i
  {
    if i == |tms| then Success(impls)
    else
      match VisitSpec(impls, tms[i], techs)
      case Failure(e) => Failure(e)
      case Success(s) => ResolveFrom(s, tms, i + 1, techs)
  }

  /** `resolve_implies(techno_matches, technologies)`: every match visited in order into one list that starts empty. */
  function ResolveImpliesSpec(tms: seq<TechMatch>, techs: Dict<Technology>): Result<seq<TechMatch>, Error> {
    ResolveFrom([], tms, 0, techs)
  }

  /**
   * `_resolve_implies_inner`, with its loop over the implied matches. The
   * shared list is passed in and handed back.
   */
  method Visit(impls: seq<TechMatch>, tm: TechMatch, techs: Dict<Technology>) returns (r: Result<seq<TechMatch>, Error>)
    decreases |(ValueNames(techs) + {tm.technology.name}) - NamesOf(impls)|
    ensures r == VisitSpec(impls, tm, techs)
  {
    if tm.technology.name in NamesOf(impls) {
      return Success(impls);
    }
    var resolved := ImpliedUpTo(techs, tm, |tm.technology.implies|);
    if resolved.Failure? {
      return Failure(resolved.error);
    }
    var implied := resolved.value;
    ImpliedNamesKnown(techs, tm, implied);
    NamesSnoc(impls, tm);
    var acc := impls + [tm];
    for i := 0 to |implied|
      invariant Extends(acc, impls + [tm])
      invariant VisitChildren(acc, implied, i, techs) == VisitChildren(impls + [tm], implied, 0, techs)
    {
      ExtendsNames(acc, impls + [tm]);
      MeasureDrops(ValueNames(techs), tm.technology.name, implied[i].technology.name, NamesOf(impls), NamesOf(acc));
      var sub := Visit(acc, implied[i], techs);
      if sub.Failure? {
        return Failure(sub.error);
      }
      ExtendsTrans(sub.value, acc, impls + [tm]);
      acc := sub.value;
    }
    return Success(acc);
  }

  /** `resolve_implies`: every match visited in order into one shared list. */
  method ResolveImplies(tms: seq<TechMatch>, techs: Dict<Technology>) returns (r: Result<seq<TechMatch>, Error>)
    ensures r == ResolveImpliesSpec(tms, techs)
  {
    var impls: seq<TechMatch> := [];
    for i := 0 to |tms|
      invariant ResolveFrom(impls, tms, i, techs) == ResolveImpliesSpec(tms, techs)
    {
      var sub := Visit(impls, tms[i], techs);
      if sub.Failure? {
        return Failure(sub.error);
      }
      impls := sub.value;
    }
    return Success(impls);
  }

  /**
   * A visit extends the list, lists `tm` once by name, leaves every entry
   * it added closed under implication and implied by an earlier entry, and
   * fails only on an implied name the rule set lacks, never when the rule
   * set resolves all its implications.
   */
  lemma {:induction false} VisitSpecOk(impls: seq<TechMatch>, tm: TechMatch, techs: Dict<Technology>)
    requires DistinctNames(impls)
    decreases |(ValueNames(techs) + {tm.technology.name}) - NamesOf(impls)|, 0, 0
    ensures var r := VisitSpec(impls, tm, techs);
      && (r.Success? ==> VisitOk(impls, tm, techs, r.value))
      && (r.Failure? ==> r.error.MissingTechnology? && !HasKey(techs, r.error.name))
      && (ImpliesKnown(tm.technology, techs) && RuleSetClosed(techs) ==> r.Success?)
      && (tm.technology.implies == [] ==>
            r == Success(if tm.technology.name in NamesOf(impls) then impls else impls + [tm]))
  {
    if tm.technology.name !in NamesOf(impls) {
      var resolved := ImpliedUpTo(techs, tm, |tm.technology.implies|);
      if resolved.Success? {
        var implied := resolved.value;
        ImpliedNamesKnown(techs, tm, implied);
        NamesSnoc(impls, tm);
        EnterMeasure(ValueNames(techs), tm.technology.name, NamesOf(impls));
        AppendFresh(impls, tm, techs);
        ChildrenOk(impls, tm, techs, implied, 0, impls + [tm]);
      }
    }
  }

  /** The loop invariant of the visit of `tm`, carried from child `i` to the end. */
  lemma {:induction false} ChildrenOk(impls: seq<TechMatch>, tm: TechMatch, techs: Dict<Technology>,
                                      implied: seq<TechMatch>, i: nat, acc: seq<TechMatch>)
    requires tm.technology.name !in NamesOf(impls)
    requires i <= |implied| && |implied| == |tm.technology.implies|
    requires forall m :: 0 <= m < |implied| ==> ImpliedBy(techs, tm, m, implied[m])
    requires forall m :: 0 <= m < |implied| ==> implied[m].technology.name in ValueNames(techs)
    requires Extends(acc, impls + [tm]) && DistinctNames(acc)
    requires forall m :: 0 <= m < i ==> implied[m].technology.name in NamesOf(acc)
    requires ClosedFrom(acc, |impls| + 1, techs) && DerivedFrom(acc, |impls|, techs)
    decreases |ValueNames(techs) - NamesOf(acc)|, 1, |implied| - i
    ensures var r := VisitChildren(acc, implied, i, techs);
      && (r.Success? ==> VisitOk(impls, tm, techs, r.value))
      && (r.Failure? ==> r.error.MissingTechnology? && !HasKey(techs, r.error.name))
      && (RuleSetClosed(techs) ==> r.Success?)
  {
    if i == |implied| {
      CloseRoot(impls, tm, techs, implied, acc);
      FinishVisit(impls, tm, techs, acc);
    } else {
      var child := implied[i];
      assert ValueNames(techs) + {child.technology.name} == ValueNames(techs);
      VisitSpecOk(acc, child, techs);
      if RuleSetClosed(techs) {
        ValueKnown(techs, tm.technology.implies[i].name);
      }
      var sub := VisitSpec(acc, child, techs);
      if sub.Success? {
        VisitStep(impls, tm, techs, implied, i, acc, sub.value);
        ExtendsNames(sub.value, acc);
        ShrinkMeasure(ValueNames(techs), NamesOf(acc), NamesOf(sub.value));
        ChildrenOk(impls, tm, techs, implied, i + 1, sub.value);
      }
    }
  }

  /**
   * The result of `resolve_implies` lists every match once by name, is
   * closed under implication, holds only matches and entries implied by an
   * earlier entry, starts with the first match, fails only on an implied
   * name the rule set lacks (never when every implication resolves), and
   * is the input itself when nothing implies anything.
   */
  lemma ResolveImpliesOk(tms: seq<TechMatch>, techs: Dict<Technology>)
    ensures var r := ResolveImpliesSpec(tms, techs);
      && (r.Success? ==> ResolvedOk(tms, techs, r.value))
      && (r.Failure? ==> r.error.MissingTechnology? && !HasKey(techs, r.error.name))
      && (RuleSetClosed(techs) && (forall i :: 0 <= i < |tms| ==> ImpliesKnown(tms[i].technology, techs)) ==> r.Success?)
      && (Trivial(tms) ==> r == Success(tms))
  {
    ResolveFromShape(tms, techs, [], 0);
    ResolveFromNames(tms, techs, [], 0);
    ResolveFromClosed(tms, techs, [], 0);
    ResolveFromOrigins(tms, techs, [], 0);
    if RuleSetClosed(techs) && (forall i :: 0 <= i < |tms| ==> ImpliesKnown(tms[i].technology, techs)) {
      ResolveFromTotal(tms, techs, [], 0);
    }
    if Trivial(tms) {
      ResolveFromTrivial(tms, techs, [], 0);
    }
  }

  /** When nothing implies anything, each visit appends its match and the loop rebuilds its input. */
  lemma {:induction false} ResolveFromTrivial(tms: seq<TechMatch>, techs: Dict<Technology>, impls: seq<TechMatch>, i: nat)
    requires i <= |tms| && Trivial(tms) && impls == tms[..i]
    decreases |tms| - i
    ensures ResolveFrom(impls, tms, i, techs) == Success(tms)
  {
    if i == |tms| {
      assert tms[..|tms|] == tms;
    } else {
      assert DistinctNames(impls) by {
        forall a, b | 0 <= a < b < |impls| ensures impls[a].technology.name != impls[b].technology.name {
          assert impls[a] == tms[a] && impls[b] == tms[b];
        }
      }
      VisitSpecOk(impls, tms[i], techs);
      var sub := VisitSpec(impls, tms[i], techs);
      IdentityStep(tms, i, impls, sub.value);
      assert ResolveFrom(impls, tms, i, techs) == ResolveFrom(sub.value, tms, i + 1, techs);
      ResolveFromTrivial(tms, techs, sub.value, i + 1);
    }
  }

  /** No match implies anything and no two share a name. */
  predicate Trivial(tms: seq<TechMatch>) {
    DistinctNames(tms) && forall m :: 0 <= m < |tms| ==> tms[m].technology.implies == []
  }

  /**
   * The loop of `resolve_implies` from match `i` on keeps names distinct
   * and the first match first, and fails only on a name the rule set lacks.
   */
  lemma {:induction false} ResolveFromShape(tms: seq<TechMatch>, techs: Dict<Technology>, impls: seq<TechMatch>, i: nat)
    requires i <= |tms| && DistinctNames(impls)
    requires i == 0 ==> impls == []
    requires i > 0 ==> |impls| > 0 && impls[0] == tms[0]
    decreases |tms| - i
    ensures var r := ResolveFrom(impls, tms, i, techs);
      && (r.Success? ==> DistinctNames(r.value) && (|tms| > 0 ==> |r.value| > 0 && r.value[0] == tms[0]))
      && (r.Failure? ==> r.error.MissingTechnology? && !HasKey(techs, r.error.name))
  {
    if i < |tms| {
      VisitSpecOk(impls, tms[i], techs);
      var sub := VisitSpec(impls, tms[i], techs);
      if sub.Success? {
        if i > 0 {
          ExtendsAt(sub.value, impls, 0);
        } else {
          assert NamesOf(impls) == {};
        }
        assert ResolveFrom(impls, tms, i, techs) == ResolveFrom(sub.value, tms, i + 1, techs);
        ResolveFromShape(tms, techs, sub.value, i + 1);
      } else {
        assert ResolveFrom(impls, tms, i, techs) == Failure(sub.error);
      }
    }
  }

  /** The loop of `resolve_implies` from match `i` on ends with every match's name present. */
  lemma {:induction false} ResolveFromNames(tms: seq<TechMatch>, techs: Dict<Technology>, impls: seq<TechMatch>, i: nat)
    requires i <= |tms| && DistinctNames(impls)
    requires forall m :: 0 <= m < i ==> tms[m].technology.name in NamesOf(impls)
    decreases |tms| - i
    ensures var r := ResolveFrom(impls, tms, i, techs);
      r.Success? ==> forall m :: 0 <= m < |tms| ==> tms[m].technology.name in NamesOf(r.value)
  {
    if i < |tms| {
      VisitSpecOk(impls, tms[i], techs);
      var sub := VisitSpec(impls, tms[i], techs);
      if sub.Success? {
        NamesGrow(tms, i, impls, sub.value);
        assert ResolveFrom(impls, tms, i, techs) == ResolveFrom(sub.value, tms, i + 1, techs);
        ResolveFromNames(tms, techs, sub.value, i + 1);
      }
    }
  }

  /** The loop of `resolve_implies` from match `i` on keeps the list closed under implication. */
  lemma {:induction false} ResolveFromClosed(tms: seq<TechMatch>, techs: Dict<Technology>, impls: seq<TechMatch>, i: nat)
    requires i <= |tms| && DistinctNames(impls) && ClosedFrom(impls, 0, techs)
    decreases |tms| - i
    ensures var r := ResolveFrom(impls, tms, i, techs);
      r.Success? ==> ClosedFrom(r.value, 0, techs)
  {
    if i < |tms| {
      VisitSpecOk(impls, tms[i], techs);
      var sub := VisitSpec(impls, tms[i], techs);
      if sub.Success? {
        ClosedGrow(impls, sub.value, 0, techs);
        assert ResolveFrom(impls, tms, i, techs) == ResolveFrom(sub.value, tms, i + 1, techs);
        ResolveFromClosed(tms, techs, sub.value, i + 1);
      }
    }
  }

  /** The loop of `resolve_implies` from match `i` on adds only matches and implied entries. */
  lemma {:induction false} ResolveFromOrigins(tms: seq<TechMatch>, techs: Dict<Technology>, impls: seq<TechMatch>, i: nat)
    requires i <= |tms| && DistinctNames(impls) && Origins(tms, techs, impls)
    decreases |tms| - i
    ensures var r := ResolveFrom(impls, tms, i, techs);
      r.Success? ==> Origins(tms, techs, r.value)
  {
    if i < |tms| {
      VisitSpecOk(impls, tms[i], techs);
      var sub := VisitSpec(impls, tms[i], techs);
      if sub.Success? {
        OriginsGrow(tms, techs, impls, sub.value, tms[i]);
        assert ResolveFrom(impls, tms, i, techs) == ResolveFrom(sub.value, tms, i + 1, techs);
        ResolveFromOrigins(tms, techs, sub.value, i + 1);
      }
    }
  }

  /** A rule set whose implications all resolve never makes the loop of `resolve_implies` fail. */
  lemma {:induction false} ResolveFromTotal(tms: seq<TechMatch>, techs: Dict<Technology>, impls: seq<TechMatch>, i: nat)
    requires i <= |tms| && DistinctNames(impls)
    requires RuleSetClosed(techs) && forall m :: 0 <= m < |tms| ==> ImpliesKnown(tms[m].technology, techs)
    decreases |tms| - i
    ensures ResolveFrom(impls, tms, i, techs).Success?
  {
    if i < |tms| {
      var sub := VisitSpec(impls, tms[i], techs);
      assert ImpliesKnown(tms[i].technology, techs);
      VisitSpecOk(impls, tms[i], techs);
      assert ResolveFrom(impls, tms, i, techs) == ResolveFrom(sub.value, tms, i + 1, techs);
      ResolveFromTotal(tms, techs, sub.value, i + 1);
    }
  }

  /**
   * The list comprehension of `_resolve_implies_inner` over the first `n`
   * implications of `tm`: each resolved through the rule set, or the
   * `KeyError` of the first whose name the rule set lacks.
   */
  function ImpliedUpTo(techs: Dict<Technology>, tm: TechMatch, n: nat): (r: Result<seq<TechMatch>, Error>)
    requires n <= |tm.technology.implies|
    ensures r.Success? <==> forall m :: 0 <= m < n ==> HasKey(techs, tm.technology.implies[m].name)
    ensures r.Success? ==> |r.value| == n && forall m :: 0 <= m < n ==> ImpliedBy(techs, tm, m, r.value[m])
    ensures r.Failure? ==> exists m :: 0 <= m < n && r.error == MissingTechnology(tm.technology.implies[m].name)
                                                  && !HasKey(techs, tm.technology.implies[m].name)
  {
    if n == 0 then Success([])
    else
      match ImpliedUpTo(techs, tm, n - 1)
      case Failure(e) => Failure(e)
      case Success(prev) =>
        var imply := tm.technology.implies[n - 1];
        match Get(techs, imply.name)
        case None => Failure(MissingTechnology(imply.name))
        case Some(t) =>
          Success(prev + [TechMatch(t, if tm.confidence < imply.confidence then tm.confidence else imply.confidence, "")])
  }

  /** Each entry is one of the matches or was implied by an earlier entry. */
  ghost predicate Origins(tms: seq<TechMatch>, techs: Dict<Technology>, s: seq<TechMatch>) {
    forall k :: 0 <= k < |s| ==> s[k] in tms || HasParent(s, 0, k, techs)
  }

  /**
   * The result of `resolve_implies`: distinct names, every match's name
   * present, closed under implication, each entry a match or implied by
   * an earlier entry, and the first match first.
   */
  ghost predicate ResolvedOk(tms: seq<TechMatch>, techs: Dict<Technology>, s: seq<TechMatch>) {
    && DistinctNames(s)
    && (forall i :: 0 <= i < |tms| ==> tms[i].technology.name in NamesOf(s))
    && ClosedFrom(s, 0, techs)
    && Origins(tms, techs, s)
    && (|tms| > 0 ==> |s| > 0 && s[0] == tms[0])
  }

  /** Implication never raises a confidence: bounded matches give bounded entries. */
  lemma {:induction false} ResolvedConfidenceBound(tms: seq<TechMatch>, techs: Dict<Technology>, s: seq<TechMatch>, bound: int, k: nat)
    requires Origins(tms, techs, s)
    requires forall i :: 0 <= i < |tms| ==> tms[i].confidence <= bound
    requires k < |s|
    ensures s[k].confidence <= bound
    decreases k
  {
    if s[k] !in tms {
      assert HasParent(s, 0, k, techs);
      var j, m :| 0 <= j < k && ImpliedBy(techs, s[j], m, s[k]);
      ResolvedConfidenceBound(tms, techs, s, bound, j);
    }
  }

  /** An implied entry carries no version of its own. */
  lemma ResolvedVersions(tms: seq<TechMatch>, techs: Dict<Technology>, s: seq<TechMatch>, k: nat)
    requires Origins(tms, techs, s)
    requires k < |s|
    ensures s[k] in tms || s[k].version == ""
  {
  }

  /** The name of the entry an implication resolves to is a name of the rule set. */
  lemma ImpliedFacts(techs: Dict<Technology>, parent: TechMatch, m: nat, child: TechMatch)
    requires ImpliedBy(techs, parent, m, child)
    ensures child.technology.name in ValueNames(techs)
    ensures child.technology.name == Get(techs, parent.technology.implies[m].name).value.name
    ensures child.version == ""
  {
    var t := Get(techs, parent.technology.implies[m].name).value;
    var i :| 0 <= i < |techs| && techs[i] == (parent.technology.implies[m].name, t);
    assert techs[i].1.name == child.technology.name;
  }

  lemma ValueKnown(techs: Dict<Technology>, name: string)
    requires RuleSetClosed(techs) && HasKey(techs, name)
    ensures ImpliesKnown(Get(techs, name).value, techs)
  {
    var i :| 0 <= i < |techs| && techs[i] == (name, Get(techs, name).value);
    assert ImpliesKnown(techs[i].1, techs);
  }

  lemma AppendFresh(impls: seq<TechMatch>, tm: TechMatch, techs: Dict<Technology>)
    requires DistinctNames(impls)
    requires tm.technology.name !in NamesOf(impls)
    ensures DistinctNames(impls + [tm])
    ensures NamesOf(impls + [tm]) == NamesOf(impls) + {tm.technology.name}
    ensures DerivedFrom(impls + [tm], |impls|, techs) && ClosedFrom(impls + [tm], |impls| + 1, techs)
    ensures Extends(impls + [tm], impls + [tm])
  {
    var s := impls + [tm];
    forall i, j | 0 <= i < j < |s| ensures s[i].technology.name != s[j].technology.name {
      assert s[i] == impls[i];
      if j < |impls| {
        assert s[j] == impls[j];
      } else {
        assert impls[i].technology.name in NamesOf(impls);
      }
    }
    NamesSnoc(impls, tm);
  }

  lemma ExtendsNames(s: seq<TechMatch>, p: seq<TechMatch>)
    requires Extends(s, p)
    ensures NamesOf(p) <= NamesOf(s)
  {
    forall x | x in NamesOf(p) ensures x in NamesOf(s) {
      var k :| 0 <= k < |p| && p[k].technology.name == x;
      assert s[k] == p[k];
    }
  }

  lemma SubsetCard(a: set<string>, b: set<string>)
    requires a <= b
    ensures |a| <= |b|
    decreases |a|
  {
    if a != {} {
      var x :| x in a;
      assert (a - {x}) + {x} == a;
      assert (b - {x}) + {x} == b;
      SubsetCard(a - {x}, b - {x});
    }
  }

  /** The termination measure of `Visit`: listing `x` leaves fewer unlisted names for a child named `y` from the rule set. */
  lemma MeasureDrops(values: set<string>, x: string, y: string, before: set<string>, after: set<string>)
    requires y in values
    requires x !in before
    requires before + {x} <= after
    ensures |(values + {y}) - after| < |(values + {x}) - before|
  {
    var big := (values + {x}) - before;
    var small := (values + {y}) - after;
    assert small <= big - {x};
    SubsetCard(small, big - {x});
    assert (big - {x}) + {x} == big;
  }

  lemma ExtendsAt(s: seq<TechMatch>, p: seq<TechMatch>, k: nat)
    requires Extends(s, p) && k < |p|
    ensures s[k] == p[k]
  {
    assert s[k] == s[..|p|][k];
  }

  lemma ExtendsTrans(s: seq<TechMatch>, q: seq<TechMatch>, p: seq<TechMatch>)
    requires Extends(s, q) && Extends(q, p)
    ensures Extends(s, p)
  {
    assert s[..|p|] == s[..|q|][..|p|];
  }

  lemma ClosedGrow(acc: seq<TechMatch>, s: seq<TechMatch>, b: nat, techs: Dict<Technology>)
    requires b <= |acc|
    requires Extends(s, acc) && ClosedFrom(acc, b, techs) && ClosedFrom(s, |acc|, techs)
    ensures ClosedFrom(s, b, techs)
  {
    ExtendsNames(s, acc);
    forall k, m | b <= k < |acc| && 0 <= m < |s[k].technology.implies|
      ensures HasKey(techs, s[k].technology.implies[m].name)
      ensures Get(techs, s[k].technology.implies[m].name).value.name in NamesOf(s)
    {
      ExtendsAt(s, acc, k);
    }
  }

  lemma DerivedGrow(acc: seq<TechMatch>, s: seq<TechMatch>, b: nat, techs: Dict<Technology>, child: TechMatch, m: nat)
    requires b < |acc|
    requires Extends(s, acc) && DerivedFrom(acc, b, techs) && DerivedFrom(s, |acc|, techs)
    requires |s| > |acc| ==> s[|acc|] == child
    requires ImpliedBy(techs, acc[b], m, child)
    ensures DerivedFrom(s, b, techs)
  {
    forall k | b < k < |s| ensures HasParent(s, b, k, techs) {
      if k < |acc| {
        assert HasParent(acc, b, k, techs);
        var j, m' :| b <= j < k && ImpliedBy(techs, acc[j], m', acc[k]);
        ExtendsAt(s, acc, j);
        ExtendsAt(s, acc, k);
        assert ImpliedBy(techs, s[j], m', s[k]);
      } else if k == |acc| {
        ExtendsAt(s, acc, b);
        assert ImpliedBy(techs, s[b], m, s[k]);
      } else {
        assert HasParent(s, |acc|, k, techs);
        var j, m' :| |acc| <= j < k && ImpliedBy(techs, s[j], m', s[k]);
        assert b <= j;
      }
    }
  }

  /** One child visit keeps the invariants of the loop in `Visit`. */
  lemma VisitStep(impls: seq<TechMatch>, tm: TechMatch, techs: Dict<Technology>, implied: seq<TechMatch>, i: nat,
                  acc: seq<TechMatch>, s: seq<TechMatch>)
    requires i < |implied|
    requires Extends(acc, impls + [tm])
    requires forall m :: 0 <= m < i ==> implied[m].technology.name in NamesOf(acc)
    requires ClosedFrom(acc, |impls| + 1, techs)
    requires DerivedFrom(acc, |impls|, techs)
    requires ImpliedBy(techs, tm, i, implied[i])
    requires VisitOk(acc, implied[i], techs, s)
    ensures Extends(s, impls + [tm])
    ensures forall m :: 0 <= m < i + 1 ==> implied[m].technology.name in NamesOf(s)
    ensures ClosedFrom(s, |impls| + 1, techs)
    ensures DerivedFrom(s, |impls|, techs)
  {
    ExtendsTrans(s, acc, impls + [tm]);
    ExtendsNames(s, acc);
    ClosedGrow(acc, s, |impls| + 1, techs);
    assert acc[|impls|] == (impls + [tm])[|impls|] == tm;
    DerivedGrow(acc, s, |impls|, techs, implied[i], i);
  }

  /** After all children, the visited match itself is closed. */
  lemma CloseRoot(impls: seq<TechMatch>, tm: TechMatch, techs: Dict<Technology>, implied: seq<TechMatch>, acc: seq<TechMatch>)
    requires |implied| == |tm.technology.implies|
    requires forall m :: 0 <= m < |implied| ==> ImpliedBy(techs, tm, m, implied[m])
    requires Extends(acc, impls + [tm])
    requires forall m :: 0 <= m < |implied| ==> implied[m].technology.name in NamesOf(acc)
    requires ClosedFrom(acc, |impls| + 1, techs)
    ensures ClosedFrom(acc, |impls|, techs)
    ensures |acc| > |impls| && acc[|impls|] == tm
  {
    assert acc[|impls|] == (impls + [tm])[|impls|];
    forall m | 0 <= m < |tm.technology.implies|
      ensures HasKey(techs, tm.technology.implies[m].name)
      ensures Get(techs, tm.technology.implies[m].name).value.name in NamesOf(acc)
    {
      ImpliedFacts(techs, tm, m, implied[m]);
    }
  }

  lemma FinishVisit(impls: seq<TechMatch>, tm: TechMatch, techs: Dict<Technology>, acc: seq<TechMatch>)
    requires tm.technology.name !in NamesOf(impls)
    requires Extends(acc, impls + [tm]) && DistinctNames(acc)
    requires ClosedFrom(acc, |impls|, techs) && DerivedFrom(acc, |impls|, techs)
    ensures VisitOk(impls, tm, techs, acc)
  {
    ExtendsAt(acc, impls + [tm], |impls|);
    assert (impls + [tm])[|impls|] == tm;
    assert acc[..|impls|] == acc[..|impls| + 1][..|impls|];
    assert (impls + [tm])[..|impls|] == impls;
  }

  /** One visit keeps the invariants of the loop in `ResolveImplies`. */
  lemma NamesGrow(tms: seq<TechMatch>, i: nat, impls: seq<TechMatch>, s: seq<TechMatch>)
    requires i < |tms|
    requires forall m :: 0 <= m < i ==> tms[m].technology.name in NamesOf(impls)
    requires Extends(s, impls) && tms[i].technology.name in NamesOf(s)
    ensures forall m :: 0 <= m < i + 1 ==> tms[m].technology.name in NamesOf(s)
  {
    ExtendsNames(s, impls);
  }

  lemma OriginsGrow(tms: seq<TechMatch>, techs: Dict<Technology>, impls: seq<TechMatch>, s: seq<TechMatch>, tm: TechMatch)
    requires Origins(tms, techs, impls)
    requires Extends(s, impls) && DerivedFrom(s, |impls|, techs)
    requires tm in tms
    requires |s| > |impls| ==> s[|impls|] == tm
    ensures Origins(tms, techs, s)
  {
    forall k | 0 <= k < |s| ensures s[k] in tms || HasParent(s, 0, k, techs) {
      if k < |impls| {
        ExtendsAt(s, impls, k);
        if s[k] !in tms {
          assert HasParent(impls, 0, k, techs);
          var j, m :| 0 <= j < k && ImpliedBy(techs, impls[j], m, impls[k]);
          ExtendsAt(s, impls, j);
          assert ImpliedBy(techs, s[j], m, s[k]);
        }
      } else if k > |impls| {
        assert HasParent(s, |impls|, k, techs);
        var j, m :| |impls| <= j < k && ImpliedBy(techs, s[j], m, s[k]);
      }
    }
  }

  lemma IdentityStep(tms: seq<TechMatch>, i: nat, impls: seq<TechMatch>, s: seq<TechMatch>)
    requires i < |tms| && DistinctNames(tms)
    requires impls == tms[..i]
    requires s == if tms[i].technology.name in NamesOf(impls) then impls else impls + [tms[i]]
    ensures s == tms[..i + 1]
  {
    assert tms[..i + 1] == tms[..i] + [tms[i]];
    forall k | 0 <= k < |impls| ensures impls[k].technology.name != tms[i].technology.name {
      assert impls[k] == tms[k];
    }
  }
  lemma ImpliedNamesKnown(techs: Dict<Technology>, tm: TechMatch, implied: seq<TechMatch>)
    requires |implied| == |tm.technology.implies|
    requires forall m :: 0 <= m < |implied| ==> ImpliedBy(techs, tm, m, implied[m])
    ensures forall m :: 0 <= m < |implied| ==> implied[m].technology.name in ValueNames(techs)
  {
    forall m | 0 <= m < |implied| ensures implied[m].technology.name in ValueNames(techs) {
      ImpliedFacts(techs, tm, m, implied[m]);
    }
  }

  lemma NamesSnoc(impls: seq<TechMatch>, tm: TechMatch)
    ensures NamesOf(impls + [tm]) == NamesOf(impls) + {tm.technology.name}
  {
    var s := impls + [tm];
    forall x ensures x in NamesOf(s) <==> x in NamesOf(impls) || x == tm.technology.name {
      if x in NamesOf(s) {
        var k :| 0 <= k < |s| && s[k].technology.name == x;
        if k < |impls| {
          assert impls[k] == s[k];
        }
      }
      if x in NamesOf(impls) {
        var k :| 0 <= k < |impls| && impls[k].technology.name == x;
        assert s[k] == impls[k];
      }
      if x == tm.technology.name {
        assert s[|impls|] == tm;
      }
    }
  }

  lemma ExtendsSnoc(impls: seq<TechMatch>, tm: TechMatch)
    ensures Extends(impls + [tm], impls)
  {
    assert (impls + [tm])[..|impls|] == impls;
  }

  /** Listing a new name `x` shrinks the set of unlisted rule-set names below the visit's measure. */
  lemma EnterMeasure(values: set<string>, x: string, before: set<string>)
    requires x !in before
    ensures |values - (before + {x})| < |(values + {x}) - before|
  {
    var small := values - (before + {x});
    assert small + {x} == (values + {x}) - before;
  }

  lemma ShrinkMeasure(values: set<string>, before: set<string>, after: set<string>)
    requires before <= after
    ensures |values - after| <= |values - before|
  {
    SubsetCard(values - after, values - before);
  }
}
