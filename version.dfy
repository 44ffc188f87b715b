/**
 * The version-template resolver (`_resolve_version`): a template such as
 * `\1` or `\1?Enterprise:Community` is rewritten with the capture groups
 * of the pattern's match, one group index at a time.
 */
module Version {
  import opened Wrappers
  import opened Strings
  import opened Structs

  /** Capture groups of one match: index 0 is the whole match, `None` a group that did not take part. */
  type Groups = seq<Option<string>>

  /** Python truthiness of a group: absent and empty groups are false. */
  predicate Truthy(g: Option<string>) {
    g.Some? && g.value != ""
  }

  /** `match or ""`. */
  function GroupText(g: Option<string>): string {
    if g.Some? then g.value else ""
  }

  /** `"\\{}".format(i)`: a backslash followed by the decimal index. */
  function RefToken(i: nat): (t: string)
    ensures |t| >= 2 && t[0] == '\\'
  {
    "\\" + NatToString(i)
  }

  predicate NoNewline(s: string) {
    forall k :: 0 <= k < |s| ==> s[k] != '\n'
  }

  /** The whole match of the ternary pattern and its two groups. */
  datatype Ternary = Ternary(whole: string, onTrue: string, onFalse: string)

  /**
   * The match, starting exactly at position `p` of `v`, of the pattern
   * `\\i\?([^:]+):(.*)$`: the token `\i?`, one or more characters up to
   * the first colon, the colon, then the rest of the line, which must
   * reach the end of `v` or stop just before a final newline.
   */
  function TernaryAt(v: string, i: nat, p: nat): (r: Option<Ternary>)
    requires p <= |v|
    ensures r.Some? ==> |r.value.whole| > 0
  {
    var head := RefToken(i) + "?";
    var rest := v[p..];
    if |rest| < |head| || rest[..|head|] != head then None
    else
      var body := rest[|head|..];
      match Find(body, ":")
      case None => None
      case Some(j) =>
        if j == 0 then None
        else
          var tail := body[j + 1..];
          if NoNewline(tail) then Some(Ternary(rest, body[..j], tail))
          else if tail[|tail| - 1] == '\n' && NoNewline(tail[..|tail| - 1]) then
            Some(Ternary(rest[..|rest| - 1], body[..j], tail[..|tail| - 1]))
          else None
  }

  /** `re.search`: the ternary match at the leftmost position `>= p`. */
  function FindTernaryFrom(v: string, i: nat, p: nat): (r: Option<Ternary>)
    requires p <= |v|
    ensures r.Some? ==> |r.value.whole| > 0
    decreases |v| - p
  {
    match TernaryAt(v, i, p)
    case Some(t) => Some(t)
    case None => if p == |v| then None else FindTernaryFrom(v, i, p + 1)
  }

  function FindTernary(v: string, i: nat): (r: Option<Ternary>)
    ensures r.Some? ==> |r.value.whole| > 0
  {
    FindTernaryFrom(v, i, 0)
  }

  /**
   * One iteration of the loop for group `i`: a ternary found in the
   * ORIGINAL template rebuilds the working string from the template;
   * then the working string is stripped and every `\i` in it is replaced
   * by the group's text.
   */
  function Step(version: string, resolved: string, i: nat, g: Option<string>): string {
    var current :=
      match FindTernary(version, i)
      case Some(t) => Replace(version, t.whole, if Truthy(g) then t.onTrue else t.onFalse)
      case None => resolved;
    Replace(Strip(current), RefToken(i), GroupText(g))
  }

  /** The working string after the groups `0 .. k-1` have been processed. */
  function Rewrite(version: string, groups: Groups, k: nat): string
    requires k <= |groups|
  {
    if k == 0 then version else Step(version, Rewrite(version, groups, k - 1), k - 1, groups[k - 1])
  }

  /** The template rewritten with every group of a match. */
  function Substitute(version: string, groups: Groups): string {
    Rewrite(version, groups, |groups|)
  }

  /** `_resolve_version(version, regex, value)`, with the regex search abstracted as `search`. */
  function ResolveVersionSpec(version: string, regex: string, value: string, search: SearchFn): (r: string)
    ensures version == "" ==> r == version
    ensures search(regex, value).None? ==> r == version
    ensures version != "" && search(regex, value).Some? ==> r == Substitute(version, search(regex, value).value)
  {
    if version == "" then version
    else
      match search(regex, value)
      case None => version
      case Some(groups) => Substitute(version, groups)
  }

  /** The loop of `_resolve_version`, rewriting `resolved` once per group. */
  method ResolveVersion(version: string, regex: string, value: string, search: SearchFn) returns (resolved: string)
    ensures resolved == ResolveVersionSpec(version, regex, value, search)
  {
    if version == "" {
      return version;
    }
    var matches := search(regex, value);
    if matches.None? {
      return version;
    }
    var groups := matches.value;
    resolved := version;
    for index := 0 to |groups|
      invariant resolved == Rewrite(version, groups, index)
    {
      var ternary := FindTernary(version, index);
      if ternary.Some? {
        var t := ternary.value;
        resolved := Replace(version, t.whole, if Truthy(groups[index]) then t.onTrue else t.onFalse);
      }
      resolved := Replace(Strip(resolved), RefToken(index), GroupText(groups[index]));
    }
  }

  // ---------------------------------------------------------------------
  // Properties

  lemma {:induction false} NoTernaryWithoutBackslash(v: string, i: nat, p: nat)
    requires p <= |v|
    requires '\\' !in v
    ensures FindTernaryFrom(v, i, p) == None
    decreases |v| - p
  {
    var head := RefToken(i) + "?";
    if |v[p..]| >= |head| {
      assert v[p..][..|head|][0] == v[p];
      assert v[p] in v;
    }
    if p < |v| {
      NoTernaryWithoutBackslash(v, i, p + 1);
    }
  }

  lemma NoRefWithoutBackslash(s: string, i: nat, repl: string)
    requires '\\' !in s
    ensures Replace(s, RefToken(i), repl) == s
  {
    var t := RefToken(i);
    forall j | 0 <= j <= |s| - |t| ensures !OccursAt(s, t, j) {
      assert s[j] in s;
    }
    ReplaceAbsent(s, t, repl);
  }

  /**
   * A template without back-references is only stripped: `strip()` runs
   * once per group, and the substitutions find nothing to replace.
   */
  /** One step over a template without back-references strips the working string and changes nothing else. */
  lemma PlainStep(version: string, prev: string, i: nat, g: Option<string>)
    requires '\\' !in version
    requires Strip(prev) == Strip(version)
    ensures Step(version, prev, i, g) == Strip(version)
  {
    NoTernaryWithoutBackslash(version, i, 0);
    StripKeepsAbsent(version, '\\');
    NoRefWithoutBackslash(Strip(version), i, GroupText(g));
  }

  /**
   * A template without back-references is only stripped: `strip()` runs
   * once per group, and the substitutions find nothing to replace.
   */
  lemma {:induction false} PlainTemplateIsStripped(version: string, groups: Groups, k: nat)
    requires 1 <= k <= |groups|
    requires '\\' !in version
    ensures Rewrite(version, groups, k) == Strip(version)
  {
    if k > 1 {
      PlainTemplateIsStripped(version, groups, k - 1);
      StripIdempotent(version);
    }
    PlainStep(version, Rewrite(version, groups, k - 1), k - 1, groups[k - 1]);
  }

  lemma ShortTemplateHasNoTernary(v: string, i: nat, p: nat)
    requires p <= |v| <= 2
    ensures FindTernaryFrom(v, i, p) == None
    decreases |v| - p
  {
    if p < |v| {
      ShortTemplateHasNoTernary(v, i, p + 1);
    }
  }

  /** A step for a group without a ternary only strips and substitutes the working string. */
  lemma StepWithoutTernary(version: string, resolved: string, i: nat, g: Option<string>)
    requires FindTernary(version, i) == None
    ensures Step(version, resolved, i, g) == Replace(Strip(resolved), RefToken(i), GroupText(g))
  {
  }

  /** `\1` becomes the text of group 1, unstripped (the last substitution is not followed by a strip). */
  lemma BackReference(g0: Option<string>, g1: Option<string>)
    ensures Substitute("\\1", [g0, g1]) == GroupText(g1)
  {
    var v := "\\1";
    var gs := [g0, g1];
    ShortTemplateHasNoTernary(v, 0, 0);
    ShortTemplateHasNoTernary(v, 1, 0);
    assert NatToString(0) == "0" && NatToString(1) == "1";
    assert RefToken(0) == "\\0" && RefToken(1) == v;
    StripNoSpace(v);
    assert !Contains(v, "\\0") by {
      assert !OccursAt(v, "\\0", 0) by { assert v[0..2][1] == '1'; }
    }
    ReplaceAbsent(v, "\\0", GroupText(g0));
    StepWithoutTernary(v, v, 0, g0);
    assert Rewrite(v, gs, 1) == v;
    StepWithoutTernary(v, v, 1, g1);
    ReplaceWhole(v, GroupText(g1));
    assert Substitute(v, gs) == Step(v, Rewrite(v, gs, 1), 1, g1);
  }

  lemma TernaryFound(a: string, b: string)
    requires a != [] && ':' !in a && '\n' !in b
    ensures FindTernary("\\1?" + a + ":" + b, 1) == Some(Ternary("\\1?" + a + ":" + b, a, b))
  {
    var v := "\\1?" + a + ":" + b;
    var head := RefToken(1) + "?";
    assert NatToString(1) == "1";
    assert head == "\\1?";
    assert v[0..] == v;
    assert v[..|head|] == head;
    var body := v[|head|..];
    assert body == a + ":" + b;
    FirstOccurrence(a, ':', b);
    assert a + ":" + b == a + [':'] + b;
    assert body[..|a|] == a && body[|a| + 1..] == b;
    assert NoNewline(b) by {
      forall k | 0 <= k < |b| ensures b[k] != '\n' {
        assert b[k] in b;
      }
    }
    assert TernaryAt(v, 1, 0) == Some(Ternary(v, a, b));
  }

  /**
   * A ternary template `\1?A:B` over a regex with one group gives the
   * stripped true branch when group 1 matched non-empty text and the
   * stripped false branch otherwise.
   */
  lemma TernaryTemplate(a: string, b: string, groups: Groups)
    requires a != [] && ':' !in a && '\n' !in b
    requires '\\' !in a && '\\' !in b
    requires |groups| == 2
    ensures Substitute("\\1?" + a + ":" + b, groups) == Strip(if Truthy(groups[1]) then a else b)
  {
    var v := "\\1?" + a + ":" + b;
    TernaryFound(a, b);
    var choice := if Truthy(groups[1]) then a else b;
    assert Substitute(v, groups) == Step(v, Rewrite(v, groups, 1), 1, groups[1]);
    assert Step(v, Rewrite(v, groups, 1), 1, groups[1])
        == Replace(Strip(Replace(v, v, choice)), RefToken(1), GroupText(groups[1]));
    ReplaceWhole(v, choice);
    StripSlice(choice);
    NoRefWithoutBackslash(Strip(choice), 1, GroupText(groups[1]));
  }

  /** The two branches of the Magento template meet the conditions of `TernaryTemplate`. */
  lemma MagentoBranches(a: string, b: string)
    requires a == "Enterprise" && b == "Community"
    ensures a != [] && ':' !in a && '\n' !in b && '\\' !in a && '\\' !in b
    ensures Strip(a) == a && Strip(b) == b
  {
    StripNoSpace(a);
    StripNoSpace(b);
  }

  /** The Magento template of the technology database, on a page without the enterprise path. */
  lemma TestTernaryCommunity(v: string, groups: Groups)
    requires v == "\\1?Enterprise:Community"
    requires groups == [Some("skin/frontend/default"), None]
    ensures Substitute(v, groups) == "Community"
  {
    var a, b := "Enterprise", "Community";
    assert v == "\\1?" + a + ":" + b;
    MagentoBranches(a, b);
    TernaryTemplate(a, b, groups);
  }

  /** The same template on a page whose path names the enterprise edition. */
  lemma TestTernaryEnterprise(v: string, groups: Groups)
    requires v == "\\1?Enterprise:Community"
    requires groups == [Some("skin/frontend/enterprise"), Some("enterprise")]
    ensures Substitute(v, groups) == "Enterprise"
  {
    var a, b := "Enterprise", "Community";
    assert v == "\\1?" + a + ":" + b;
    MagentoBranches(a, b);
    TernaryTemplate(a, b, groups);
  }

  lemma TestBackReference()
    ensures Substitute("\\1", [Some("3.3/mathjax.js"), Some("3.3")]) == "3.3"
  {
    BackReference(Some("3.3/mathjax.js"), Some("3.3"));
  }

  /**
   * When the last group's ternary is found, the result is rebuilt from the
   * template alone: the steps for the earlier groups do not count.
   */
  lemma LastTernaryStep(version: string, groups: Groups, t: Ternary)
    requires |groups| > 0 && FindTernary(version, |groups| - 1) == Some(t)
    ensures var g := groups[|groups| - 1];
      Substitute(version, groups)
        == Replace(Strip(Replace(version, t.whole, if Truthy(g) then t.onTrue else t.onFalse)), RefToken(|groups| - 1), GroupText(g))
  {
  }

  lemma TernaryOfSecondGroup()
    ensures FindTernary("\\1 \\2?x:y", 2) == Some(Ternary("\\2?x:y", "x", "y"))
  {
    var v := "\\1 \\2?x:y";
    SecondTernaryAt(v);
    NoSecondTernaryBefore(v);
  }

  lemma SecondTernaryAt(v: string)
    requires v == "\\1 \\2?x:y"
    ensures TernaryAt(v, 2, 3) == Some(Ternary("\\2?x:y", "x", "y"))
  {
    var whole := "\\2?x:y";
    assert NatToString(2) == "2" && RefToken(2) + "?" == "\\2?";
    assert v[3..] == whole && whole[..3] == "\\2?" && whole[3..] == "x:y";
    FirstOccurrence("x", ':', "y");
    assert "x" + [':'] + "y" == "x:y";
    assert "x:y"[..1] == "x" && "x:y"[2..] == "y";
    assert NoNewline("y");
  }

  lemma NoSecondTernaryBefore(v: string)
    requires v == "\\1 \\2?x:y"
    ensures TernaryAt(v, 2, 0) == None && TernaryAt(v, 2, 1) == None && TernaryAt(v, 2, 2) == None
  {
    assert NatToString(2) == "2" && RefToken(2) + "?" == "\\2?";
    assert v[0..][..3][1] == '1';
    assert v[1..][..3][0] == '1';
    assert v[2..][..3][0] == ' ';
  }

  lemma CutSecondTernary(v: string, choice: string)
    requires v == "\\1 \\2?x:y"
    ensures Replace(v, "\\2?x:y", choice) == "\\1 " + choice
  {
    var whole := "\\2?x:y";
    assert OccursAt(v, whole, 3) by { assert v[3..9] == whole; }
    assert !OccursAt(v, whole, 0) by { assert v[0..6][1] == '1' != whole[1]; }
    assert !OccursAt(v, whole, 1) by { assert v[1..7][0] == '1' != whole[0]; }
    assert !OccursAt(v, whole, 2) by { assert v[2..8][0] == ' ' != whole[0]; }
    FindIs(v, whole, 3);
    assert v[..3] == "\\1 " && v[9..] == "";
    assert Find("", whole) == None;
    assert Split(v, whole) == ["\\1 ", ""];
    assert Join(["\\1 ", ""], choice) == "\\1 " + choice + "";
  }

  /**
   * A ternary is looked up in, and rebuilt from, the ORIGINAL template,
   * which throws away the substitutions already made for earlier groups:
   * in `\1 \2?x:y` the back-reference `\1` stays in the result whatever
   * group 1 matched.
   */
  lemma TernaryRebuildsFromTemplate(v: string, g0: Option<string>, g1: Option<string>, g2: Option<string>)
    requires v == "\\1 \\2?x:y"
    ensures Substitute(v, [g0, g1, g2]) == "\\1 " + (if Truthy(g2) then "x" else "y")
  {
    var gs := [g0, g1, g2];
    var choice := if Truthy(g2) then "x" else "y";
    TernaryOfSecondGroup();
    LastTernaryStep(v, gs, Ternary("\\2?x:y", "x", "y"));
    CutSecondTernary(v, choice);
    NoSecondRef(choice, GroupText(g2));
  }

  lemma NoSecondRef(choice: string, text: string)
    requires choice == "x" || choice == "y"
    ensures Replace(Strip("\\1 " + choice), RefToken(2), text) == "\\1 " + choice
  {
    var cut := "\\1 " + choice;
    StripNoSpace(cut);
    assert NatToString(2) == "2" && RefToken(2) == "\\2";
    assert !Contains(cut, "\\2") by {
      forall j | 0 <= j <= |cut| - 2 ensures !OccursAt(cut, "\\2", j) {
        assert cut[j..j + 2][1] == cut[j + 1];
      }
    }
    ReplaceAbsent(cut, "\\2", text);
  }
}
