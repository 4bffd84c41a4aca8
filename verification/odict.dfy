/**
  Python's `dict`, whose iteration order is the order in which keys were first inserted,
  as a sequence of (key, value) entries.
 */
module ODict {

  import opened Wrappers

  type Dict<K, V> = seq<(K, V)>

  /** `list(d.keys())`. */
  function Keys<K, V>(d: Dict<K, V>): (ks: seq<K>)
    ensures |ks| == |d| && forall i :: 0 <= i < |d| ==> ks[i] == d[i].0
    decreases |d|
  {
    if d == [] then [] else [d[0].0] + Keys(d[1..])
  }

  /** `list(d.values())`. */
  function Values<K, V>(d: Dict<K, V>): (vs: seq<V>)
    ensures |vs| == |d| && forall i :: 0 <= i < |d| ==> vs[i] == d[i].1
  {
    seq(|d|, i requires 0 <= i < |d| => d[i].1)
  }

  /** `k in d`. */
  predicate HasKey<K(==), V>(d: Dict<K, V>, k: K) {
    k in Keys(d)
  }

  /** `d.get(k)`: the value of the first entry with key `k`. */
  function Get<K(==), V>(d: Dict<K, V>, k: K): (r: Option<V>)
    ensures r.Some? <==> HasKey(d, k)
    ensures r.Some? ==> (k, r.value) in d
    decreases |d|
  {
    if d == [] then None
    else if d[0].0 == k then Some(d[0].1)
    else
      Get(d[1..], k)
  }

  /** `d[k] = v`. */
  function Put<K(==), V>(d: Dict<K, V>, k: K, v: V): Dict<K, V>
    decreases |d|
  {
    if d == [] then [(k, v)]
    else if d[0].0 == k then [(k, v)] + d[1..]
    else [d[0]] + Put(d[1..], k, v)
  }

  /** An existing key keeps its place, a new key goes last. */
  lemma {:induction false} PutKeys<K, V>(d: Dict<K, V>, k: K, v: V)
    ensures HasKey(d, k) ==> Keys(Put(d, k, v)) == Keys(d)
    ensures !HasKey(d, k) ==> Keys(Put(d, k, v)) == Keys(d) + [k]
    decreases |d|
  {
    if d != [] {
      var r := Put(d, k, v);
      if d[0].0 == k {
        assert r[1..] == d[1..];
      } else {
        PutKeys(d[1..], k, v);
        assert r[1..] == Put(d[1..], k, v);
        assert Keys(d) == [d[0].0] + Keys(d[1..]);
        assert HasKey(d, k) <==> HasKey(d[1..], k);
      }
    }
  }

  /** Reading after writing: the written key has the new value, every other key its old one. */
  lemma {:induction false} GetPut<K(!new), V>(d: Dict<K, V>, k: K, v: V, k': K)
    ensures Get(Put(d, k, v), k') == if k' == k then Some(v) else Get(d, k')
    decreases |d|
  {
    if d != [] {
      var r := Put(d, k, v);
      if d[0].0 == k {
        assert r[1..] == d[1..];
      } else {
        GetPut(d[1..], k, v, k');
        assert r[1..] == Put(d[1..], k, v);
      }
    }
  }

  /** No key appears twice: what a Python dict always is. */
  predicate Distinct<K(==), V>(d: Dict<K, V>) {
    forall i, j :: 0 <= i < j < |d| ==> d[i].0 != d[j].0
  }

  lemma {:induction false} PutDistinct<K(!new), V>(d: Dict<K, V>, k: K, v: V)
    requires Distinct(d)
    ensures Distinct(Put(d, k, v))
  {
    var r := Put(d, k, v);
    PutKeys(d, k, v);
    GetPut(d, k, v, k);
    assert Keys(r) == Keys(d) || Keys(r) == Keys(d) + [k];
    forall i, j | 0 <= i < j < |r| ensures r[i].0 != r[j].0 {
      assert Keys(r)[i] == r[i].0 && Keys(r)[j] == r[j].0;
      if Keys(r) == Keys(d) {
        assert Keys(d)[i] == d[i].0 && Keys(d)[j] == d[j].0;
      } else {
        if j == |d| {
          assert !HasKey(d, k);
          assert r[j].0 == k;
          assert Keys(d)[i] == r[i].0;
        } else {
          assert Keys(d)[i] == d[i].0 && Keys(d)[j] == d[j].0;
        }
      }
    }
  }

  /** In a dictionary without repeated keys, every entry is what its key looks up. */
  lemma {:induction false} GetEntry<K, V>(d: Dict<K, V>, i: nat)
    requires Distinct(d) && i < |d|
    ensures Get(d, d[i].0) == Some(d[i].1)
    decreases i
  {
    if i > 0 {
      assert d[0].0 != d[i].0;
      assert Distinct(d[1..]) by {
        forall a, b | 0 <= a < b < |d| - 1 ensures d[1..][a].0 != d[1..][b].0 {
          assert d[a + 1].0 != d[b + 1].0;
        }
      }
      GetEntry(d[1..], i - 1);
    }
  }

  /** The dictionary as a mathematical map, for Python's order-blind `==` on dicts. */
  function ToMap<K(==,!new), V>(d: Dict<K, V>): (m: map<K, V>)
    ensures forall k :: k in m <==> HasKey(d, k)
    ensures forall k :: k in m ==> Some(m[k]) == Get(d, k)
  {
    map k | k in Keys(d) :: Get(d, k).value
  }

  /** Every entry of `d[k] = v` is an entry of `d` or the new one. */
  lemma {:induction false} PutEntries<K, V>(d: Dict<K, V>, k: K, v: V, e: (K, V))
    requires e in Put(d, k, v)
    ensures e in d || e == (k, v)
    decreases |d|
  {
    if d != [] && d[0].0 != k && e != d[0] {
      PutEntries(d[1..], k, v, e);
    }
  }

  /** Every value replaced by what `f` makes of its entry; the keys stay in place. */
  function MapValues<K, V, W>(d: Dict<K, V>, f: (K, V) -> W): (r: Dict<K, W>)
    ensures |r| == |d|
    ensures forall i :: 0 <= i < |d| ==> r[i] == (d[i].0, f(d[i].0, d[i].1))
    decreases |d|
  {
    if d == [] then [] else [(d[0].0, f(d[0].0, d[0].1))] + MapValues(d[1..], f)
  }

  /** A key looks up what `f` makes of the value it looked up before. */
  lemma {:induction false} GetMapValues<K, V, W>(d: Dict<K, V>, f: (K, V) -> W, k: K)
    ensures Get(MapValues(d, f), k) == if HasKey(d, k) then Some(f(k, Get(d, k).value)) else None
    decreases |d|
  {
    if d != [] && d[0].0 != k {
      GetMapValues(d[1..], f, k);
      assert MapValues(d, f)[1..] == MapValues(d[1..], f);
    }
  }

  /** Replacing values keeps the dictionary free of repeated keys. */
  lemma MapValuesDistinct<K, V, W>(d: Dict<K, V>, f: (K, V) -> W)
    requires Distinct(d)
    ensures Distinct(MapValues(d, f))
  {
  }

  /** An entry added at the end is found only when its key was not there before. */
  lemma {:induction false} GetSnoc<K, V>(d: Dict<K, V>, k: K, v: V, key: K)
    ensures Get(d + [(k, v)], key) == if HasKey(d, key) then Get(d, key) else if k == key then Some(v) else None
    decreases |d|
  {
    if d != [] && d[0].0 != key {
      assert (d + [(k, v)])[1..] == d[1..] + [(k, v)];
      GetSnoc(d[1..], k, v, key);
    }
  }

  /** An entry added at the end adds its key. */
  lemma HasKeySnoc<K, V>(d: Dict<K, V>, e: (K, V), key: K)
    ensures HasKey(d + [e], key) <==> HasKey(d, key) || e.0 == key
  {
    assert Keys(d + [e]) == Keys(d) + [e.0];
  }

  /** A key is in a dictionary when it is in all but the last entry or is the last entry's. */
  lemma HasKeyLast<K, V>(d: Dict<K, V>, key: K)
    requires d != []
    ensures HasKey(d, key) <==> HasKey(d[..|d| - 1], key) || d[|d| - 1].0 == key
  {
    var n := |d| - 1;
    if HasKey(d, key) && d[n].0 != key {
      var i :| 0 <= i < |d| && Keys(d)[i] == key;
      assert Keys(d[..n])[i] == key;
    }
    if HasKey(d[..n], key) {
      var i :| 0 <= i < n && Keys(d[..n])[i] == key;
      assert Keys(d)[i] == key;
    }
    if d[n].0 == key {
      assert Keys(d)[n] == key;
    }
  }

  /** The last entry is found only when its key is not in the entries before it. */
  lemma GetLast<K, V>(d: Dict<K, V>, key: K)
    requires d != []
    ensures Get(d, key) ==
      if HasKey(d[..|d| - 1], key) then Get(d[..|d| - 1], key)
      else if d[|d| - 1].0 == key then Some(d[|d| - 1].1) else None
  {
    assert d == d[..|d| - 1] + [d[|d| - 1]];
    GetSnoc(d[..|d| - 1], d[|d| - 1].0, d[|d| - 1].1, key);
  }

  /** `d[k] = v` adds `k` and no other key. */
  lemma HasKeyPut<K(!new), V>(d: Dict<K, V>, k: K, v: V, key: K)
    ensures HasKey(Put(d, k, v), key) <==> HasKey(d, key) || key == k
  {
    GetPut(d, k, v, key);
  }

  /** Writing a key that is not there appends it. */
  lemma {:induction false} PutAbsent<K, V>(d: Dict<K, V>, k: K, v: V)
    requires !HasKey(d, k)
    ensures Put(d, k, v) == d + [(k, v)]
    decreases |d|
  {
    if d != [] {
      assert Keys(d) == [d[0].0] + Keys(d[1..]);
      PutAbsent(d[1..], k, v);
      assert [d[0]] + (d[1..] + [(k, v)]) == d + [(k, v)];
    }
  }
}
