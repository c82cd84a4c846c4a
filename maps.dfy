/**
 * Repeated assignment `m[keys[i]] = vals[i]` for i = 0, 1, ..., the way a
 * `for ... range` loop fills a Go map, and where each key ends up.
 */
module Maps {

  /** The map after writing vals[i] under keys[i], in increasing order of i. */
  function PutAll<K, V>(m: map<K, V>, keys: seq<K>, vals: seq<V>): map<K, V>
    requires |keys| == |vals|
    decreases |keys|
  {
    if keys == [] then m
    else
      var n := |keys| - 1;
      PutAll(m, keys[..n], vals[..n])[keys[n] := vals[n]]
  }

  /** The position of the last occurrence of k in keys. */
  function LastIndex<K(==)>(keys: seq<K>, k: K): (i: nat)
    requires k in keys
    ensures i < |keys| && keys[i] == k
    ensures forall j :: i < j < |keys| ==> keys[j] != k
    decreases |keys|
  {
    var n := |keys| - 1;
    if keys[n] == k then n else LastIndex(keys[..n], k)
  }

  /** After the writes, the keys are the old ones plus the written ones. */
  lemma {:induction false} PutAllKeys<K, V>(m: map<K, V>, keys: seq<K>, vals: seq<V>)
    requires |keys| == |vals|
    ensures forall k :: k in PutAll(m, keys, vals) <==> k in m || k in keys
    decreases |keys|
  {
    if keys != [] {
      var n := |keys| - 1;
      PutAllKeys(m, keys[..n], vals[..n]);
      assert keys == keys[..n] + [keys[n]];
    }
  }

  /** A written key holds the value of its last write. */
  lemma {:induction false} PutAllLastWins<K, V>(m: map<K, V>, keys: seq<K>, vals: seq<V>, k: K)
    requires |keys| == |vals|
    requires k in keys
    ensures k in PutAll(m, keys, vals)
    ensures PutAll(m, keys, vals)[k] == vals[LastIndex(keys, k)]
    decreases |keys|
  {
    var n := |keys| - 1;
    if keys[n] != k {
      PutAllLastWins(m, keys[..n], vals[..n], k);
    }
  }

  /** A key that is never written keeps its old entry, or stays absent. */
  lemma {:induction false} PutAllRetains<K, V>(m: map<K, V>, keys: seq<K>, vals: seq<V>, k: K)
    requires |keys| == |vals|
    requires k !in keys
    ensures k in PutAll(m, keys, vals) <==> k in m
    ensures k in m ==> PutAll(m, keys, vals)[k] == m[k]
    decreases |keys|
  {
    if keys != [] {
      var n := |keys| - 1;
      PutAllRetains(m, keys[..n], vals[..n], k);
    }
  }

  /** What the writes leave under every key, written or not. */
  lemma {:induction false} PutAllSpec<K, V>(m: map<K, V>, keys: seq<K>, vals: seq<V>)
    requires |keys| == |vals|
    ensures forall k :: k in PutAll(m, keys, vals) <==> k in m || k in keys
    ensures forall k :: k in keys ==>
      k in PutAll(m, keys, vals) && PutAll(m, keys, vals)[k] == vals[LastIndex(keys, k)]
    ensures forall k :: k in m && k !in keys ==>
      k in PutAll(m, keys, vals) && PutAll(m, keys, vals)[k] == m[k]
  {
    PutAllKeys(m, keys, vals);
    forall k | k in keys
      ensures k in PutAll(m, keys, vals) && PutAll(m, keys, vals)[k] == vals[LastIndex(keys, k)]
    {
      PutAllLastWins(m, keys, vals, k);
    }
    forall k | k in m && k !in keys
      ensures k in PutAll(m, keys, vals) && PutAll(m, keys, vals)[k] == m[k]
    {
      PutAllRetains(m, keys, vals, k);
    }
  }
}
