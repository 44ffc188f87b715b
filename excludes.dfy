/**
 * `resolve_excludes`: mutually exclusive technologies resolved greedily,
 * the earlier match winning.
 */
module Excludes {
  import opened Structs
  import opened Aggregate

  /** `[ex.name for ex in techno_match.technology.excludes]`. */
  function ExcludedNames(t: Technology): seq<string> {
    seq(|t.excludes|, i requires 0 <= i < |t.excludes| => t.excludes[i].name)
  }

  /** `[tm for tm in techno_matches if tm.technology.name not in excludes]`. */
  function Without(s: seq<TechMatch>, names: seq<string>): (r: seq<TechMatch>)
    ensures |r| <= |s|
  {
    if s == [] then []
    else (if s[0].technology.name in names then [] else [s[0]]) + Without(s[1..], names)
  }

  /** The matches kept from `s`: the head, then what survives of the tail once the head's exclusions are removed. */
  function ExcludeSpec(s: seq<TechMatch>): seq<TechMatch>
    decreases |s|
  {
    if s == [] then []
    else [s[0]] + ExcludeSpec(Without(s[1..], ExcludedNames(s[0].technology)))
  }

  /**
   * `resolve_excludes(techno_matches)`. The list is popped from the front
   * until empty (where the source catches the `IndexError`), each popped
   * match is kept and what it excludes is filtered out of the rest. The
   * caller's sequence is a value and cannot be changed.
   */
  method ResolveExcludes(tms: seq<TechMatch>) returns (kept: seq<TechMatch>)
    ensures kept == ExcludeSpec(tms)
    ensures tms != [] ==> |kept| > 0 && kept[0] == tms[0]
  {
    var rest := tms;
    kept := [];
    while rest != []
      invariant kept + ExcludeSpec(rest) == ExcludeSpec(tms)
      decreases |rest|
    {
      var tm := rest[0];
      rest := rest[1..];
      kept := kept + [tm];
      var excludes := seq(|tm.technology.excludes|, i requires 0 <= i < |tm.technology.excludes| => tm.technology.excludes[i].name);
      rest := Without(rest, excludes);
    }
    assert kept + [] == kept;
  }

  // ---------------------------------------------------------------------
  // Subsequences

  /** `a` is `b` with some elements removed, in the same order. */
  predicate Subseq(a: seq<TechMatch>, b: seq<TechMatch>)
    decreases |b|
  {
    if a == [] then true
    else if b == [] then false
    else (a[0] == b[0] && Subseq(a[1..], b[1..])) || Subseq(a, b[1..])
  }

  lemma {:induction false} SubseqMembers(a: seq<TechMatch>, b: seq<TechMatch>)
    requires Subseq(a, b)
    ensures forall x :: x in a ==> x in b
    decreases |b|
  {
    if a != [] {
      if a[0] == b[0] && Subseq(a[1..], b[1..]) {
        SubseqMembers(a[1..], b[1..]);
        forall x | x in a ensures x in b {
          if x != a[0] {
            assert x in a[1..];
          }
        }
      } else {
        SubseqMembers(a, b[1..]);
      }
    }
  }

  lemma {:induction false} SubseqTrans(a: seq<TechMatch>, b: seq<TechMatch>, c: seq<TechMatch>)
    requires Subseq(a, b) && Subseq(b, c)
    ensures Subseq(a, c)
    decreases |c|
  {
    if a != [] {
      assert b != [] && c != [];
      if b[0] == c[0] && Subseq(b[1..], c[1..]) {
        if a[0] == b[0] && Subseq(a[1..], b[1..]) {
          SubseqTrans(a[1..], b[1..], c[1..]);
        } else {
          SubseqTrans(a, b[1..], c[1..]);
        }
      } else {
        SubseqTrans(a, b, c[1..]);
      }
    }
  }

  lemma {:induction false} SubseqCons(x: TechMatch, a: seq<TechMatch>, b: seq<TechMatch>)
    requires Subseq(a, b)
    ensures Subseq([x] + a, [x] + b)
  {
    assert ([x] + a)[1..] == a && ([x] + b)[1..] == b;
  }

  lemma {:induction false} SubseqRefl(a: seq<TechMatch>)
    ensures Subseq(a, a)
    decreases |a|
  {
    if a != [] {
      SubseqRefl(a[1..]);
    }
  }

  /** Dropping elements keeps names distinct. */
  lemma {:induction false} SubseqDistinct(a: seq<TechMatch>, b: seq<TechMatch>)
    requires Subseq(a, b) && DistinctNames(b)
    ensures DistinctNames(a)
    decreases |b|
  {
    if a != [] {
      assert DistinctNames(b[1..]) by {
        forall i, j | 0 <= i < j < |b[1..]| ensures b[1..][i].technology.name != b[1..][j].technology.name {
          assert b[1..][i] == b[i + 1] && b[1..][j] == b[j + 1];
        }
      }
      if a[0] == b[0] && Subseq(a[1..], b[1..]) {
        SubseqDistinct(a[1..], b[1..]);
        SubseqMembers(a[1..], b[1..]);
        forall i, j | 0 <= i < j < |a| ensures a[i].technology.name != a[j].technology.name {
          assert a[j] == a[1..][j - 1];
          if i == 0 {
            assert a[j] in b[1..];
            var k :| 0 <= k < |b[1..]| && b[1..][k] == a[j];
            assert b[k + 1] == a[j];
          } else {
            assert a[i] == a[1..][i - 1];
          }
        }
      } else {
        SubseqDistinct(a, b[1..]);
      }
    }
  }

  /** Filtering keeps the order, and keeps exactly the elements whose name is not excluded. */
  lemma {:induction false} WithoutMeaning(s: seq<TechMatch>, names: seq<string>)
    ensures Subseq(Without(s, names), s)
    ensures forall x :: x in Without(s, names) <==> x in s && x.technology.name !in names
    decreases |s|
  {
    if s != [] {
      WithoutMeaning(s[1..], names);
      var w := Without(s[1..], names);
      assert s == [s[0]] + s[1..];
      if s[0].technology.name in names {
        assert Without(s, names) == w;
        assert Subseq(w, s);
      } else {
        assert Without(s, names) == [s[0]] + w;
        SubseqCons(s[0], w, s[1..]);
      }
    }
  }

  /** The matches kept are a subsequence of the input: nothing is added or reordered. */
  lemma {:induction false} ExcludeSubseq(s: seq<TechMatch>)
    ensures Subseq(ExcludeSpec(s), s)
    decreases |s|
  {
    if s != [] {
      var w := Without(s[1..], ExcludedNames(s[0].technology));
      ExcludeSubseq(w);
      WithoutMeaning(s[1..], ExcludedNames(s[0].technology));
      SubseqTrans(ExcludeSpec(w), w, s[1..]);
      SubseqCons(s[0], ExcludeSpec(w), s[1..]);
      assert s == [s[0]] + s[1..];
    }
  }

  /** No match of `r` is excluded by one before it. */
  predicate ConflictFree(r: seq<TechMatch>) {
    forall i, j :: 0 <= i < j < |r| ==> r[j].technology.name !in ExcludedNames(r[i].technology)
  }

  /** No kept match is excluded by a match kept before it. */
  lemma {:induction false} ExcludeConflictFree(s: seq<TechMatch>)
    ensures ConflictFree(ExcludeSpec(s))
    decreases |s|
  {
    if s != [] {
      var names := ExcludedNames(s[0].technology);
      var w := Without(s[1..], names);
      var tail := ExcludeSpec(w);
      ExcludeConflictFree(w);
      ExcludeSubseq(w);
      SubseqMembers(tail, w);
      WithoutMeaning(s[1..], names);
      var r := ExcludeSpec(s);
      assert r == [s[0]] + tail;
      forall i, j | 0 <= i < j < |r| ensures r[j].technology.name !in ExcludedNames(r[i].technology) {
        assert r[j] == tail[j - 1];
        if i == 0 {
          assert tail[j - 1] in tail;
          assert tail[j - 1] in w;
          assert r[0] == s[0];
        } else {
          assert r[i] == tail[i - 1];
          assert ConflictFree(tail);
          assert tail[j - 1].technology.name !in ExcludedNames(tail[i - 1].technology);
        }
      }
    }
  }

  /** Without exclusions nothing is dropped. */
  lemma {:induction false} NoExcludesIdentity(s: seq<TechMatch>)
    requires forall i :: 0 <= i < |s| ==> s[i].technology.excludes == []
    ensures ExcludeSpec(s) == s
    decreases |s|
  {
    if s != [] {
      WithoutNothing(s[1..]);
      NoExcludesIdentity(s[1..]);
      assert s == [s[0]] + s[1..];
    }
  }

  lemma {:induction false} WithoutNothing(s: seq<TechMatch>)
    ensures Without(s, []) == s
    decreases |s|
  {
    if s != [] {
      WithoutNothing(s[1..]);
      assert s == [s[0]] + s[1..];
    }
  }

  // ---------------------------------------------------------------------
  // The greedy reading

  /** Some match of `kept` excludes `x`. */
  predicate Blocked(kept: seq<TechMatch>, x: TechMatch) {
    exists i :: 0 <= i < |kept| && x.technology.name in ExcludedNames(kept[i].technology)
  }

  /**
   * Reference reading: one left-to-right pass that keeps a match unless a
   * match already kept excludes it.
   */
  function Greedy(kept: seq<TechMatch>, s: seq<TechMatch>): seq<TechMatch>
    decreases |s|
  {
    if s == [] then kept
    else if Blocked(kept, s[0]) then Greedy(kept, s[1..])
    else Greedy(kept + [s[0]], s[1..])
  }

  /** The matches of `s` no match of `kept` excludes. */
  function Unblocked(s: seq<TechMatch>, kept: seq<TechMatch>): seq<TechMatch>
    decreases |s|
  {
    if s == [] then []
    else (if Blocked(kept, s[0]) then [] else [s[0]]) + Unblocked(s[1..], kept)
  }

  lemma BlockedAppend(kept: seq<TechMatch>, x: TechMatch, y: TechMatch)
    ensures Blocked(kept + [x], y) <==> Blocked(kept, y) || y.technology.name in ExcludedNames(x.technology)
  {
    if Blocked(kept + [x], y) {
      var i :| 0 <= i < |kept| + 1 && y.technology.name in ExcludedNames((kept + [x])[i].technology);
      if i < |kept| {
        assert (kept + [x])[i] == kept[i];
      }
    }
    if Blocked(kept, y) {
      var i :| 0 <= i < |kept| && y.technology.name in ExcludedNames(kept[i].technology);
      assert (kept + [x])[i] == kept[i];
    }
    if y.technology.name in ExcludedNames(x.technology) {
      assert (kept + [x])[|kept|] == x;
    }
  }

  /** Keeping one more match filters the rest once more by its exclusions. */
  lemma {:induction false} UnblockedAppend(s: seq<TechMatch>, kept: seq<TechMatch>, x: TechMatch)
    ensures Unblocked(s, kept + [x]) == Without(Unblocked(s, kept), ExcludedNames(x.technology))
    decreases |s|
  {
    if s != [] {
      UnblockedAppend(s[1..], kept, x);
      BlockedAppend(kept, x, s[0]);
      var names := ExcludedNames(x.technology);
      var u := Unblocked(s[1..], kept);
      if Blocked(kept, s[0]) {
        assert Unblocked(s, kept) == u;
      } else {
        assert Unblocked(s, kept) == [s[0]] + u;
        assert ([s[0]] + u)[1..] == u;
      }
    }
  }

  lemma {:induction false} GreedyIsExclude(kept: seq<TechMatch>, s: seq<TechMatch>)
    ensures Greedy(kept, s) == kept + ExcludeSpec(Unblocked(s, kept))
    decreases |s|
  {
    if s == [] {
      assert kept + [] == kept;
    } else if Blocked(kept, s[0]) {
      GreedyIsExclude(kept, s[1..]);
      assert Unblocked(s, kept) == [] + Unblocked(s[1..], kept);
      assert [] + Unblocked(s[1..], kept) == Unblocked(s[1..], kept);
    } else {
      GreedyIsExclude(kept + [s[0]], s[1..]);
      UnblockedAppend(s[1..], kept, s[0]);
      var u := Unblocked(s, kept);
      assert u == [s[0]] + Unblocked(s[1..], kept);
      assert u[1..] == Unblocked(s[1..], kept);
    }
  }

  lemma {:induction false} UnblockedByNothing(s: seq<TechMatch>)
    ensures Unblocked(s, []) == s
    decreases |s|
  {
    if s != [] {
      UnblockedByNothing(s[1..]);
      assert s == [s[0]] + s[1..];
    }
  }

  /**
   * First in order wins: the matches kept are exactly those of the
   * one-pass reading, so a match is dropped exactly when a match kept
   * before it excludes it.
   */
  lemma ExcludeIsGreedy(s: seq<TechMatch>)
    ensures ExcludeSpec(s) == Greedy([], s)
  {
    GreedyIsExclude([], s);
    UnblockedByNothing(s);
    assert [] + ExcludeSpec(s) == ExcludeSpec(s);
  }
}
