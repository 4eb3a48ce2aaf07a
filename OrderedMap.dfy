/** The JavaScript `Map` that a DirectoryCoverage keeps its children in, as a sequence of
    key/value pairs in insertion order: `get` finds the entry with the key, `set` replaces the
    value in place when the key is present and appends otherwise, `size` counts the entries
    and `values()` lists the values in insertion order. */
module OrderedMap {

  import opened Wrappers

  /** The position of `k`, or -1 when no entry has it. */
  function IndexOfKey<K(==), V>(m: seq<(K, V)>, k: K): (i: int)
    ensures -1 <= i < |m|
    ensures i == -1 <==> forall j :: 0 <= j < |m| ==> m[j].0 != k
    ensures i >= 0 ==> m[i].0 == k && forall j :: 0 <= j < i ==> m[j].0 != k
    decreases |m|
  {
    if m == [] then -1
    else if m[0].0 == k then 0
    else
      var j := IndexOfKey(m[1..], k);
      if j == -1 then -1 else j + 1
  }

  /** `map.get(k)`: the value stored under `k`, `None` for undefined. */
  function Lookup<K(==), V>(m: seq<(K, V)>, k: K): Option<V> {
    var i := IndexOfKey(m, k);
    if i == -1 then None else Some(m[i].1)
  }

  /** `map.set(k, v)`. */
  function Put<K(==), V>(m: seq<(K, V)>, k: K, v: V): (r: seq<(K, V)>)
    ensures |r| == if IndexOfKey(m, k) == -1 then |m| + 1 else |m|
  {
    var i := IndexOfKey(m, k);
    if i == -1 then m + [(k, v)] else m[i := (k, v)]
  }

  ghost predicate DistinctKeys<K, V>(m: seq<(K, V)>) {
    forall i, j :: 0 <= i < j < |m| ==> m[i].0 != m[j].0
  }

  function Keys<K, V>(m: seq<(K, V)>): (ks: seq<K>)
    ensures |ks| == |m| && forall i :: 0 <= i < |m| ==> ks[i] == m[i].0
    decreases |m|
  {
    if m == [] then [] else [m[0].0] + Keys(m[1..])
  }

  /** After `set(k, v)`, `get(k)` is `v` and every other key reads as before. */
  lemma LookupPut<K, V>(m: seq<(K, V)>, k: K, v: V, k': K)
    ensures Lookup(Put(m, k, v), k') == if k' == k then Some(v) else Lookup(m, k')
  {
    var r := Put(m, k, v);
    var i := IndexOfKey(m, k);
    if k' != k {
      var j := IndexOfKey(m, k');
      if i == -1 {
        assert forall t :: 0 <= t < |m| ==> r[t] == m[t];
      }
      if j == -1 {
        assert IndexOfKey(r, k') == -1;
      } else {
        assert r[j] == m[j];
        assert forall t :: 0 <= t < j ==> r[t].0 == m[t].0;
      }
    } else if i >= 0 {
      assert forall t :: 0 <= t < i ==> r[t].0 == m[t].0;
      assert r[i] == (k, v);
      var i' := IndexOfKey(r, k);
      assert i' == i;
    } else {
      assert forall t :: 0 <= t < |m| ==> r[t] == m[t];
      assert r[|m|] == (k, v);
    }
  }

  /** `set` keeps the keys distinct, so `size` is the number of keys ever set. */
  lemma PutDistinct<K, V>(m: seq<(K, V)>, k: K, v: V)
    requires DistinctKeys(m)
    ensures DistinctKeys(Put(m, k, v))
    ensures k in Keys(Put(m, k, v))
    ensures forall k' :: k' in Keys(m) ==> k' in Keys(Put(m, k, v))
  {
    var r := Put(m, k, v);
    var i := IndexOfKey(m, k);
    assert r[if i == -1 then |m| else i].0 == k;
    forall k' | k' in Keys(m) ensures k' in Keys(r) {
      var t :| 0 <= t < |m| && Keys(m)[t] == k';
      assert r[t].0 == k' || (t == i && k' == k);
    }
  }

  /** The keys in insertion order: `set` of a new key appends it, `set` of a present key
      leaves the order alone. */
  lemma KeysPut<K, V>(m: seq<(K, V)>, k: K, v: V)
    ensures Keys(Put(m, k, v)) == if IndexOfKey(m, k) == -1 then Keys(m) + [k] else Keys(m)
  {
    var i := IndexOfKey(m, k);
    var r := Put(m, k, v);
    if i == -1 {
      assert Keys(r) == Keys(m) + [k];
    } else {
      assert Keys(r) == Keys(m);
    }
  }

  /** A second `set` of the same key overwrites the first in place. */
  lemma PutTwice<K, V>(m: seq<(K, V)>, k: K, v1: V, v2: V)
    ensures Put(Put(m, k, v1), k, v2) == Put(m, k, v2)
  {
    var i := IndexOfKey(m, k);
    var m1 := Put(m, k, v1);
    if i == -1 {
      assert forall t :: 0 <= t < |m| ==> m1[t] == m[t];
      assert m1[|m|].0 == k;
      assert IndexOfKey(m1, k) == |m|;
    } else {
      assert forall t :: 0 <= t < i ==> m1[t].0 == m[t].0;
      assert m1[i].0 == k;
      assert IndexOfKey(m1, k) == i;
    }
  }

  /** Two Maps with the same keys in the same order find a key at the same position. */
  lemma {:induction false} SameKeys<K, V, W>(a: seq<(K, V)>, b: seq<(K, W)>, k: K)
    requires |a| == |b| && forall i :: 0 <= i < |a| ==> a[i].0 == b[i].0
    ensures IndexOfKey(a, k) == IndexOfKey(b, k)
    decreases |a|
  {
    if a != [] {
      SameKeys(a[1..], b[1..], k);
    }
  }
}
