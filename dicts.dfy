/**
 * Python dictionaries with string keys, as the engine uses them: an
 * insertion-ordered sequence of (key, value) pairs. Assigning to a key
 * that is already present replaces its value where it stands; a new key
 * goes to the end.
 */
module Dicts {
  import opened Wrappers

  type Dict<V> = seq<(string, V)>

  function Keys<V>(d: Dict<V>): (ks: seq<string>)
    ensures |ks| == |d|
    ensures forall i :: 0 <= i < |d| ==> ks[i] == d[i].0
  {
    seq(|d|, i requires 0 <= i < |d| => d[i].0)
  }

  predicate HasKey<V>(d: Dict<V>, k: string) {
    exists i :: 0 <= i < |d| && d[i].0 == k
  }

  predicate DistinctKeys<V>(d: Dict<V>) {
    forall i, j :: 0 <= i < j < |d| ==> d[i].0 != d[j].0
  }

  /** `d.get(k)`: the value stored under `k`, if any. */
  function Get<V>(d: Dict<V>, k: string): (r: Option<V>)
    ensures r.Some? <==> HasKey(d, k)
    ensures r.Some? ==> exists i :: 0 <= i < |d| && d[i] == (k, r.value)
  {
    if d == [] then None
    else if d[0].0 == k then Some(d[0].1)
    else
      var r := Get(d[1..], k);
      assert r.Some? ==> exists i :: 0 <= i < |d| - 1 && d[1..][i] == (k, r.value);
      assert HasKey(d[1..], k) ==> HasKey(d, k) by {
        if HasKey(d[1..], k) {
          var i :| 0 <= i < |d| - 1 && d[1..][i].0 == k;
          assert d[i + 1].0 == k;
        }
      }
      assert HasKey(d, k) ==> HasKey(d[1..], k) by {
        if HasKey(d, k) {
          var i :| 0 <= i < |d| && d[i].0 == k;
          assert d[1..][i - 1].0 == k;
        }
      }
      r
  }

  /** `d.get(k, default)`. */
  function GetOr<V>(d: Dict<V>, k: string, default: V): V {
    Get(d, k).GetOr(default)
  }

  /** `d[k] = v`: replaces the value of the first entry with key `k`, or appends `(k, v)`. */
  function Put<V>(d: Dict<V>, k: string, v: V): (r: Dict<V>)
    ensures |r| == |d| + (if HasKey(d, k) then 0 else 1)
    ensures forall i :: 0 <= i < |d| ==> r[i].0 == d[i].0
    ensures !HasKey(d, k) ==> r == d + [(k, v)]
  {
    if d == [] then [(k, v)]
    else if d[0].0 == k then [(k, v)] + d[1..]
    else
      assert HasKey(d, k) <==> HasKey(d[1..], k) by {
        if HasKey(d, k) {
          var i :| 0 <= i < |d| && d[i].0 == k;
          assert d[1..][i - 1].0 == k;
        }
        if HasKey(d[1..], k) {
          var i :| 0 <= i < |d| - 1 && d[1..][i].0 == k;
          assert d[i + 1].0 == k;
        }
      }
      [d[0]] + Put(d[1..], k, v)
  }

  /** After `d[k] = v`, looking up `k` gives `v` and every other key is unaffected. */
  lemma {:induction false} GetPut<V>(d: Dict<V>, k: string, v: V, k': string)
    ensures Get(Put(d, k, v), k') == if k' == k then Some(v) else Get(d, k')
  {
    if d != [] && d[0].0 != k {
      GetPut(d[1..], k, v, k');
      assert Put(d, k, v)[1..] == Put(d[1..], k, v);
    }
  }

  lemma PutKeepsDistinct<V>(d: Dict<V>, k: string, v: V)
    requires DistinctKeys(d)
    ensures DistinctKeys(Put(d, k, v))
    ensures HasKey(Put(d, k, v), k)
    ensures forall k' :: HasKey(Put(d, k, v), k') <==> k' == k || HasKey(d, k')
  {
    GetPutAll(d, k, v);
    assert Get(Put(d, k, v), k) == Some(v);
    forall k' ensures HasKey(Put(d, k, v), k') <==> k' == k || HasKey(d, k') {
      assert Get(Put(d, k, v), k').Some? <==> k' == k || Get(d, k').Some?;
    }
  }

  lemma GetPutAll<V>(d: Dict<V>, k: string, v: V)
    ensures forall k' :: Get(Put(d, k, v), k') == if k' == k then Some(v) else Get(d, k')
  {
    forall k' ensures Get(Put(d, k, v), k') == if k' == k then Some(v) else Get(d, k') {
      GetPut(d, k, v, k');
    }
  }

  lemma HasKeyAppend<V>(d: Dict<V>, e: (string, V), k: string)
    ensures HasKey(d + [e], k) <==> HasKey(d, k) || e.0 == k
  {
    if HasKey(d + [e], k) {
      var j :| 0 <= j < |d| + 1 && (d + [e])[j].0 == k;
      if j < |d| {
        assert d[j].0 == k;
      }
    }
    if HasKey(d, k) {
      var j :| 0 <= j < |d| && d[j].0 == k;
      assert (d + [e])[j].0 == k;
    }
    if e.0 == k {
      assert (d + [e])[|d|].0 == k;
    }
  }
}
