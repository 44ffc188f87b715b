/**
 * The Python string primitives the rule loader and the version resolver
 * rely on: `str.split`, `str.join`, `str.replace`, `str.strip`,
 * `str.lower` and `int(str)`, written out over `seq<char>`.
 */
module Strings {
  import opened Wrappers

  // ---------------------------------------------------------------------
  // Characters

  function LowerChar(c: char): char {
    if 'A' <= c <= 'Z' then (c as int + 32) as char else c
  }

  /** `str.lower`, restricted to the ASCII letters. */
  function Lower(s: string): (r: string)
    ensures |r| == |s|
    ensures forall i :: 0 <= i < |s| ==> r[i] == LowerChar(s[i])
  {
    seq(|s|, i requires 0 <= i < |s| => LowerChar(s[i]))
  }

  predicate IsLower(s: string) {
    forall i :: 0 <= i < |s| ==> !('A' <= s[i] <= 'Z')
  }

  lemma LowerIsLower(s: string)
    ensures IsLower(Lower(s))
    ensures Lower(Lower(s)) == Lower(s)
  {
  }

  lemma LowerOfLower(s: string)
    requires IsLower(s)
    ensures Lower(s) == s
  {
  }

  /** The ASCII whitespace `str.strip` removes. */
  predicate IsSpace(c: char) {
    var n := c as int;
    n == 32 || 9 <= n <= 13 || 28 <= n <= 31
  }

  predicate IsDigit(c: char) {
    '0' <= c <= '9'
  }

  // ---------------------------------------------------------------------
  // strip

  function TrimLeft(s: string): (r: string)
    ensures |r| <= |s| && r == s[|s| - |r|..]
    ensures r != [] ==> !IsSpace(r[0])
    ensures forall k :: 0 <= k < |s| - |r| ==> IsSpace(s[k])
  {
    if s != [] && IsSpace(s[0]) then TrimLeft(s[1..]) else s
  }

  function TrimRight(s: string): (r: string)
    ensures |r| <= |s| && r == s[..|r|]
    ensures r != [] ==> !IsSpace(r[|r| - 1])
    ensures forall k :: |r| <= k < |s| ==> IsSpace(s[k])
  {
    if s != [] && IsSpace(s[|s| - 1]) then TrimRight(s[..|s| - 1]) else s
  }

  /** `str.strip()`: the longest slice of `s` that neither starts nor ends with whitespace. */
  function Strip(s: string): (r: string)
  {
    TrimRight(TrimLeft(s))
  }

  lemma {:induction false} StripSlice(s: string)
    ensures exists a, b :: && 0 <= a <= b <= |s| && Strip(s) == s[a..b]
                           && (forall k :: 0 <= k < a ==> IsSpace(s[k]))
                           && (forall k :: b <= k < |s| ==> IsSpace(s[k]))
    ensures forall c :: c in Strip(s) ==> c in s
    ensures Strip(s) != [] ==> !IsSpace(Strip(s)[0]) && !IsSpace(Strip(s)[|Strip(s)| - 1])
  {
    var t := TrimLeft(s);
    var r := TrimRight(t);
    var a := |s| - |t|;
    assert r == s[a..a + |r|];
    forall k | a + |r| <= k < |s| ensures IsSpace(s[k]) {
      assert s[k] == t[k - a];
    }
    forall c | c in r ensures c in s {
      var k :| 0 <= k < |r| && r[k] == c;
      assert s[a + k] == c;
    }
    if r != [] {
      assert r[0] == t[0];
    }
  }

  /** A string with no leading and no trailing whitespace is its own strip. */
  lemma StripKeepsAbsent(s: string, c: char)
    requires c !in s
    ensures c !in Strip(s)
  {
    StripSlice(s);
  }

  lemma StripNoSpace(s: string)
    requires s != [] ==> !IsSpace(s[0]) && !IsSpace(s[|s| - 1])
    ensures Strip(s) == s
  {
  }

  lemma StripIdempotent(s: string)
    ensures Strip(Strip(s)) == Strip(s)
  {
    StripSlice(s);
    StripNoSpace(Strip(s));
  }

  // ---------------------------------------------------------------------
  // find, split, join, replace

  predicate OccursAt(s: string, pat: string, j: int) {
    0 <= j && j + |pat| <= |s| && s[j..j + |pat|] == pat
  }

  predicate Contains(s: string, pat: string) {
    exists j :: 0 <= j <= |s| - |pat| && OccursAt(s, pat, j)
  }

  /** The leftmost occurrence of `pat` at or after position `from`. */
  function FindFrom(s: string, pat: string, from: nat): (r: Option<nat>)
    requires |pat| > 0
    ensures r.Some? ==> from <= r.value && OccursAt(s, pat, r.value)
    ensures r.Some? ==> forall j :: from <= j < r.value ==> !OccursAt(s, pat, j)
    ensures r.None? ==> forall j :: from <= j ==> !OccursAt(s, pat, j)
    decreases |s| - from
  {
    if from + |pat| > |s| then None
    else if s[from..from + |pat|] == pat then Some(from)
    else FindFrom(s, pat, from + 1)
  }

  /** `str.find`: the index of the leftmost occurrence of `pat`. */
  function Find(s: string, pat: string): (r: Option<nat>)
    requires |pat| > 0
    ensures r.Some? ==> OccursAt(s, pat, r.value)
    ensures r.Some? ==> forall j :: 0 <= j < r.value ==> !OccursAt(s, pat, j)
    ensures r.None? ==> forall j :: 0 <= j ==> !OccursAt(s, pat, j)
  {
    FindFrom(s, pat, 0)
  }

  lemma FindNoneIsAbsent(s: string, pat: string)
    requires |pat| > 0
    ensures Find(s, pat).None? <==> !Contains(s, pat)
  {
  }

  /** Only this characterisation of `Find` is used: the leftmost occurrence is unique. */
  lemma FindIs(s: string, pat: string, j: nat)
    requires |pat| > 0 && OccursAt(s, pat, j)
    requires forall k :: 0 <= k < j ==> !OccursAt(s, pat, k)
    ensures Find(s, pat) == Some(j)
  {
  }

  /** A one-character separator is first found right after a prefix that lacks it. */
  lemma FirstOccurrence(a: string, c: char, b: string)
    requires c !in a
    ensures Find(a + [c] + b, [c]) == Some(|a|)
  {
    var s := a + [c] + b;
    assert OccursAt(s, [c], |a|);
    forall k | 0 <= k < |a| ensures !OccursAt(s, [c], k) {
      assert s[k..k + 1] == [a[k]];
      assert a[k] in a;
    }
    FindIs(s, [c], |a|);
  }

  /** A string without the separator's first character does not contain it. */
  lemma LacksFirstChar(s: string, sep: string)
    requires |sep| > 0 && sep[0] !in s
    ensures !Contains(s, sep)
  {
    forall j | 0 <= j <= |s| - |sep| ensures !OccursAt(s, sep, j) {
      assert s[j..j + |sep|][0] == s[j];
      assert s[j] in s;
    }
  }

  /**
   * For a two-character separator whose characters differ, a string free
   * of it stays free when another free string follows, unless the first
   * ends with the separator's first character.
   */
  lemma PairSepConcat(a: string, b: string, sep: string)
    requires |sep| == 2 && sep[0] != sep[1]
    requires !Contains(a, sep) && !Contains(b, sep)
    requires a == [] || a[|a| - 1] != sep[0]
    ensures !Contains(a + b, sep)
  {
    var s := a + b;
    forall j | 0 <= j <= |s| - 2 ensures !OccursAt(s, sep, j) {
      if j + 2 <= |a| {
        assert s[j..j + 2] == a[j..j + 2];
        assert !OccursAt(a, sep, j);
      } else if j >= |a| {
        assert s[j..j + 2] == b[j - |a|..j - |a| + 2];
        assert !OccursAt(b, sep, j - |a|);
      } else {
        assert s[j..j + 2][0] == a[|a| - 1];
      }
    }
  }

  /** For such a separator, it is first found right after a prefix that is free of it. */
  lemma PairSepFirst(a: string, b: string, sep: string)
    requires |sep| == 2 && sep[0] != sep[1]
    requires !Contains(a, sep)
    ensures Find(a + sep + b, sep) == Some(|a|)
  {
    var s := a + sep + b;
    assert s[|a|..|a| + 2] == sep;
    forall j | 0 <= j < |a| ensures !OccursAt(s, sep, j) {
      if j + 2 <= |a| {
        assert s[j..j + 2] == a[j..j + 2];
        assert !OccursAt(a, sep, j);
      } else {
        assert s[j..j + 2][1] == sep[0];
      }
    }
    FindIs(s, sep, |a|);
  }

  /** `s.split(sep)` for a non-empty separator. */
  function Split(s: string, sep: string): (parts: seq<string>)
    requires |sep| > 0
    ensures |parts| >= 1
    decreases |s|
  {
    match Find(s, sep)
    case None => [s]
    case Some(i) => [s[..i]] + Split(s[i + |sep|..], sep)
  }

  /** `sep.join(parts)`. */
  function Join(parts: seq<string>, sep: string): string
  {
    if |parts| == 0 then ""
    else if |parts| == 1 then parts[0]
    else parts[0] + sep + Join(parts[1..], sep)
  }

  /** Splitting at a first occurrence that ends the first piece. */
  lemma SplitCons(a: string, b: string, sep: string)
    requires |sep| > 0 && Find(a + sep + b, sep) == Some(|a|)
    ensures Split(a + sep + b, sep) == [a] + Split(b, sep)
  {
    var s := a + sep + b;
    assert s[..|a|] == a;
    assert s[|a| + |sep|..] == b;
  }

  lemma SplitFree(s: string, sep: string)
    requires |sep| > 0 && !Contains(s, sep)
    ensures Split(s, sep) == [s]
  {
    FindNoneIsAbsent(s, sep);
  }

  /** Joining the pieces of a split with the same separator gives the string back. */
  lemma {:induction false} JoinSplit(s: string, sep: string)
    requires |sep| > 0
    ensures Join(Split(s, sep), sep) == s
    decreases |s|
  {
    match Find(s, sep)
    case None =>
    case Some(i) =>
      var rest := s[i + |sep|..];
      JoinSplit(rest, sep);
      CutAt(s, sep, i);
      JoinCons(s[..i], Split(rest, sep), sep, rest, s);
  }

  /** An occurrence of `sep` at `i` cuts `s` into the part before it, `sep`, and the rest. */
  lemma CutAt(s: string, sep: string, i: nat)
    requires OccursAt(s, sep, i)
    ensures s == s[..i] + sep + s[i + |sep|..]
  {
    assert s == s[..i] + s[i..i + |sep|] + s[i + |sep|..];
  }

  lemma JoinCons(head: string, tail: seq<string>, sep: string, rest: string, s: string)
    requires |tail| >= 1 && Join(tail, sep) == rest && s == head + sep + rest
    ensures Join([head] + tail, sep) == s
  {
    assert ([head] + tail)[1..] == tail;
  }

  /** No piece of a split contains the separator. */
  lemma {:induction false} SplitPiecesFree(s: string, sep: string)
    requires |sep| > 0
    ensures forall k :: 0 <= k < |Split(s, sep)| ==> !Contains(Split(s, sep)[k], sep)
    decreases |s|
  {
    match Find(s, sep)
    case None =>
    case Some(i) =>
      var rest := s[i + |sep|..];
      SplitPiecesFree(rest, sep);
      var head := s[..i];
      forall j | 0 <= j <= |head| - |sep| ensures !OccursAt(head, sep, j) {
        assert head[j..j + |sep|] == s[j..j + |sep|];
        assert !OccursAt(s, sep, j);
      }
      assert Split(s, sep) == [head] + Split(rest, sep);
  }

  /** The first piece is the text before the first separator; the others, re-joined, are the text after it. */
  lemma SplitAtFirst(s: string, sep: string)
    requires |sep| > 0
    ensures Find(s, sep).None? ==> Split(s, sep) == [s]
    ensures Find(s, sep).Some? ==>
      var i := Find(s, sep).value;
      |Split(s, sep)| >= 2 && Split(s, sep)[0] == s[..i] && Join(Split(s, sep)[1..], sep) == s[i + |sep|..]
  {
    match Find(s, sep)
    case None =>
    case Some(i) =>
      JoinSplit(s[i + |sep|..], sep);
      assert Split(s, sep)[1..] == Split(s[i + |sep|..], sep);
  }

  /** `s.replace(pat, repl)` for a non-empty `pat`: every non-overlapping occurrence, left to right. */
  function Replace(s: string, pat: string, repl: string): string
    requires |pat| > 0
  {
    Join(Split(s, pat), repl)
  }

  lemma ReplaceAbsent(s: string, pat: string, repl: string)
    requires |pat| > 0
    requires !Contains(s, pat)
    ensures Replace(s, pat, repl) == s
  {
    FindNoneIsAbsent(s, pat);
  }

  lemma ReplaceWhole(s: string, repl: string)
    requires |s| > 0
    ensures Replace(s, s, repl) == repl
  {
    assert s[..|s|] == s;
    assert s[0..0 + |s|] == s;
    assert Find(s, s) == Some(0);
    assert s[|s|..] == "";
    assert s[..0] == "";
    assert Find("", s) == None;
    assert Split("", s) == [""];
    assert Split(s, s) == ["", ""];
    assert ["", ""][1..] == [""];
    assert Join(["", ""], repl) == "" + repl + "";
  }

  /** Replacing `pat` by itself changes nothing. */
  lemma ReplaceRoundTrip(s: string, pat: string)
    requires |pat| > 0
    ensures Replace(s, pat, pat) == s
  {
    JoinSplit(s, pat);
  }

  // ---------------------------------------------------------------------
  // decimal numbers

  function DigitChar(d: nat): char
    requires d < 10
  {
    ('0' as int + d) as char
  }

  function DigitOf(c: char): nat
    requires IsDigit(c)
  {
    c as int - '0' as int
  }

  /** `str(n)` for a natural number. */
  function NatToString(n: nat): (s: string)
    ensures |s| > 0
    ensures forall k :: 0 <= k < |s| ==> IsDigit(s[k])
    ensures n >= 10 ==> |s| >= 2
    ensures n < 10 ==> s == [DigitChar(n)]
  {
    if n < 10 then [DigitChar(n)] else NatToString(n / 10) + [DigitChar(n % 10)]
  }

  /** `str(i)` for an integer. */
  function IntToString(i: int): string {
    if i < 0 then "-" + NatToString(-i) else NatToString(i)
  }

  /** Digits with single underscores between them, as `int()` accepts. */
  predicate DigitsOrUnderscores(d: string) {
    forall i :: 0 <= i < |d| ==> IsDigit(d[i]) || d[i] == '_'
  }

  /** A digit, then (after at most one underscore) more well-formed digits, or nothing. */
  predicate WellFormedDigits(d: string)
    decreases |d|
  {
    && |d| > 0
    && IsDigit(d[0])
    && (|d| == 1 || (if d[1] == '_' then |d| > 2 && WellFormedDigits(d[2..]) else WellFormedDigits(d[1..])))
  }

  lemma {:induction false} WellFormedHasOnlyDigits(d: string)
    requires WellFormedDigits(d)
    ensures DigitsOrUnderscores(d)
    decreases |d|
  {
    if |d| > 1 {
      var k := if d[1] == '_' then 2 else 1;
      WellFormedHasOnlyDigits(d[k..]);
      assert forall i :: k <= i < |d| ==> d[i] == d[k..][i - k];
    }
  }

  lemma {:induction false} DigitsAreWellFormed(d: string)
    requires |d| > 0 && forall k :: 0 <= k < |d| ==> IsDigit(d[k])
    ensures WellFormedDigits(d)
    decreases |d|
  {
    if |d| > 1 {
      assert IsDigit(d[1]);
      assert forall k :: 0 <= k < |d| - 1 ==> d[1..][k] == d[k + 1];
      DigitsAreWellFormed(d[1..]);
    }
  }

  function DigitsValue(d: string): nat
    requires DigitsOrUnderscores(d)
  {
    if d == [] then 0
    else if d[|d| - 1] == '_' then DigitsValue(d[..|d| - 1])
    else DigitsValue(d[..|d| - 1]) * 10 + DigitOf(d[|d| - 1])
  }

  function ParseDigits(d: string): Option<nat> {
    if WellFormedDigits(d) then WellFormedHasOnlyDigits(d); Some(DigitsValue(d)) else None
  }

  /**
   * `int(text)` for a decimal string: surrounding whitespace, an optional
   * sign, then digits with single underscores between them. Anything else
   * is a `ValueError`, here `None`.
   */
  function ParseInt(text: string): (r: Option<int>)
    ensures r.Some? ==> exists k :: 0 <= k < |Strip(text)| && IsDigit(Strip(text)[k])
  {
    var t := Strip(text);
    if |t| > 0 && (t[0] == '+' || t[0] == '-') then
      match ParseDigits(t[1..])
      case None => None
      case Some(n) =>
        assert IsDigit(t[1..][0]);
        var v: int := if t[0] == '-' then -(n as int) else n;
        Some(v)
    else
      match ParseDigits(t)
      case None => None
      case Some(n) => assert IsDigit(t[0]); Some(n)
  }

  lemma {:induction false} DigitsValueOfNat(n: nat)
    ensures DigitsValue(NatToString(n)) == n
  {
    if n >= 10 {
      DigitsValueOfNat(n / 10);
      var s := NatToString(n);
      assert s[..|s| - 1] == NatToString(n / 10);
    }
  }

  lemma ParseDigitsOfNat(n: nat)
    ensures ParseDigits(NatToString(n)) == Some(n)
  {
    DigitsAreWellFormed(NatToString(n));
    DigitsValueOfNat(n);
  }

  /** Every integer written by `str` is read back by `int`. */
  lemma ParseIntRoundTrip(i: int)
    ensures ParseInt(IntToString(i)) == Some(i)
  {
    var n: nat := if i < 0 then -i else i;
    var d := NatToString(n);
    ParseDigitsOfNat(n);
    var s := IntToString(i);
    assert IsDigit(s[|s| - 1]);
    StripNoSpace(s);
    if i < 0 {
      assert s[1..] == d;
    } else {
      assert IsDigit(s[0]);
    }
  }
}
