/** Python's insertion-ordered `dict`, as a list of (key, value) pairs with distinct keys. */
module Dict {
  import opened Common

  type Dict<K, V> = seq<(K, V)>

  predicate HasKey<K(==), V>(d: Dict<K, V>, k: K) {
    exists i :: 0 <= i < |d| && d[i].0 == k
  }

  /** No key appears twice, which every Python dict satisfies. */
  predicate UniqueKeys<K(==), V>(d: Dict<K, V>) {
    forall i, j :: 0 <= i < j < |d| ==> d[i].0 != d[j].0
  }

  function Keys<K, V>(d: Dict<K, V>): (r: seq<K>)
    ensures |r| == |d| && forall i :: 0 <= i < |d| ==> r[i] == d[i].0
  {
    if d == [] then [] else [d[0].0] + Keys(d[1..])
  }

  /** `d.get(k)`. */
  function Get<K(==), V(==)>(d: Dict<K, V>, k: K): (r: Option<V>)
    ensures r.None? <==> !HasKey(d, k)
    ensures r.Some? ==> exists i :: 0 <= i < |d| && d[i] == (k, r.value)
  {
    if d == [] then None
    else if d[0].0 == k then Some(d[0].1)
    else
      var r := Get(d[1..], k);
      assert r.Some? ==> exists i :: 0 <= i < |d[1..]| && d[1..][i] == (k, r.value);
      assert HasKey(d, k) <==> HasKey(d[1..], k) by {
        if HasKey(d, k) {
          var i :| 0 <= i < |d| && d[i].0 == k;
          assert i > 0 && d[1..][i - 1].0 == k;
        }
        if HasKey(d[1..], k) {
          var i :| 0 <= i < |d[1..]| && d[1..][i].0 == k;
          assert d[i + 1].0 == k;
        }
      }
      r
  }

  /** Every pair with key `k` takes the value `v`; positions are kept. */
  function Replace<K(==), V>(d: Dict<K, V>, k: K, v: V): (r: Dict<K, V>)
    ensures |r| == |d|
    ensures forall i :: 0 <= i < |d| ==> r[i] == (if d[i].0 == k then (k, v) else d[i])
  {
    if d == [] then [] else [if d[0].0 == k then (k, v) else d[0]] + Replace(d[1..], k, v)
  }

  /** Replacing a key that is not there changes nothing. */
  lemma ReplaceAbsent<K, V>(d: Dict<K, V>, k: K, v: V)
    requires forall i :: 0 <= i < |d| ==> d[i].0 != k
    ensures Replace(d, k, v) == d
  {
  }

  /** `d[k] = v`: an existing key keeps its position and takes the new value; a new key goes last. */
  function Put<K(==), V>(d: Dict<K, V>, k: K, v: V): (r: Dict<K, V>)
    ensures HasKey(d, k) ==> |r| == |d|
    ensures !HasKey(d, k) ==> r == d + [(k, v)]
    ensures forall i :: 0 <= i < |d| ==> r[i] == (if d[i].0 == k then (k, v) else d[i])
  {
    if HasKey(d, k) then Replace(d, k, v) else d + [(k, v)]
  }

  /** `del d[k]` when `k` is a key, nothing otherwise: the other pairs keep their order. */
  function Remove<K(==), V(==)>(d: Dict<K, V>, k: K): (r: Dict<K, V>)
    ensures !HasKey(r, k)
    ensures !HasKey(d, k) ==> r == d
    ensures forall i :: 0 <= i < |r| ==> r[i] in d
    ensures forall i :: 0 <= i < |d| && d[i].0 != k ==> d[i] in r
  {
    if d == [] then []
    else
      var rest := Remove(d[1..], k);
      assert forall i :: 1 <= i < |d| ==> d[i] == d[1..][i - 1];
      (if d[0].0 == k then [] else [d[0]]) + rest
  }

  /** Removing a key leaves every other key's value as it was. */
  lemma RemoveOther<K, V>(d: Dict<K, V>, k: K, other: K)
    requires UniqueKeys(d) && other != k
    ensures Get(Remove(d, k), other) == Get(d, other)
    ensures UniqueKeys(Remove(d, k))
  {
    RemoveUnique(d, k);
    var r := Remove(d, k);
    var a := Get(r, other);
    if a.Some? {
      var i :| 0 <= i < |r| && r[i] == (other, a.value);
      assert r[i] in d;
      var j :| 0 <= j < |d| && d[j] == r[i];
      UniqueGet(d, j);
    }
  }

  /** Deleting a key of a dict with distinct keys removes exactly one pair. */
  lemma {:induction false} RemoveLength<K, V>(d: Dict<K, V>, k: K)
    requires UniqueKeys(d) && HasKey(d, k)
    ensures |Remove(d, k)| == |d| - 1
  {
    if d[0].0 == k {
      assert !HasKey(d[1..], k) by {
        forall i | 0 <= i < |d[1..]|
          ensures d[1..][i].0 != k
        {
          assert d[1..][i] == d[i + 1];
        }
      }
    } else {
      var i :| 0 <= i < |d| && d[i].0 == k;
      assert d[1..][i - 1].0 == k;
      RemoveLength(d[1..], k);
    }
  }

  /** In a dict with distinct keys, the value at a key's position is its value. */
  lemma UniqueGet<K, V>(d: Dict<K, V>, j: nat)
    requires UniqueKeys(d) && j < |d|
    ensures Get(d, d[j].0) == Some(d[j].1)
  {
    FirstKeyGet(d, d[j].0, j);
  }

  /** Removing keeps keys distinct. */
  lemma {:induction false} RemoveUnique<K, V>(d: Dict<K, V>, k: K)
    requires UniqueKeys(d)
    ensures UniqueKeys(Remove(d, k))
  {
    if d != [] {
      RemoveUnique(d[1..], k);
      var rest := Remove(d[1..], k);
      if d[0].0 != k {
        forall i | 0 <= i < |rest|
          ensures rest[i].0 != d[0].0
        {
          assert rest[i] in d[1..];
        }
        ConsUnique(d[0], rest);
      }
    }
  }

  /** Dropping the first pair keeps keys distinct. */
  lemma UniqueTail<K, V>(d: Dict<K, V>)
    requires UniqueKeys(d) && d != []
    ensures UniqueKeys(d[1..])
  {
    forall i, j | 0 <= i < j < |d| - 1
      ensures d[1..][i].0 != d[1..][j].0
    {
      assert d[1..][i] == d[i + 1] && d[1..][j] == d[j + 1];
    }
  }

  /** A pair whose key is not among the others' keeps keys distinct in front of them. */
  lemma ConsUnique<K, V>(x: (K, V), rest: Dict<K, V>)
    requires UniqueKeys(rest) && forall i :: 0 <= i < |rest| ==> rest[i].0 != x.0
    ensures UniqueKeys([x] + rest)
  {
    var r := [x] + rest;
    forall i, j | 0 <= i < j < |r|
      ensures r[i].0 != r[j].0
    {
      assert r[j] == rest[j - 1];
      if i > 0 {
        assert r[i] == rest[i - 1];
      }
    }
  }

  /** After `d[k] = v`, `d.get(k)` is `v`. */
  lemma GetPut<K, V>(d: Dict<K, V>, k: K, v: V)
    ensures Get(Put(d, k, v), k) == Some(v)
  {
    var r := Put(d, k, v);
    if HasKey(d, k) {
      var i :| 0 <= i < |d| && d[i].0 == k;
      FirstKeyGet(r, k, i);
    } else {
      FirstKeyGet(r, k, |d|);
    }
  }

  /** `Get` returns the value of the first pair whose key is `k`. */
  lemma {:induction false} FirstKeyGet<K, V>(d: Dict<K, V>, k: K, i: nat)
    requires i < |d| && d[i].0 == k
    ensures Get(d, k).Some?
    ensures (forall j :: 0 <= j < i ==> d[j].0 != k) ==> Get(d, k) == Some(d[i].1)
  {
    if d[0].0 != k {
      FirstKeyGet(d[1..], k, i - 1);
    }
  }

  /** After `d[k] = v`, the dict holds `k` and every key it held. */
  lemma PutHasKey<K, V>(d: Dict<K, V>, k: K, v: V, t: K)
    ensures HasKey(d, t) || t == k ==> HasKey(Put(d, k, v), t)
  {
    var r := Put(d, k, v);
    if HasKey(d, t) {
      var i :| 0 <= i < |d| && d[i].0 == t;
      assert r[i].0 == t;
    } else if t == k {
      assert r[|d|].0 == t;
    }
  }

  lemma PutKeepsUnique<K, V>(d: Dict<K, V>, k: K, v: V)
    requires UniqueKeys(d)
    ensures UniqueKeys(Put(d, k, v))
  {
    var r := Put(d, k, v);
    if HasKey(d, k) {
      assert forall i :: 0 <= i < |d| ==> r[i].0 == d[i].0;
    } else {
      assert forall i :: 0 <= i < |d| ==> d[i].0 != k;
    }
  }

  /** `d[k] = v` leaves every other key's value alone. */
  lemma {:induction false} GetPutOther<K, V>(d: Dict<K, V>, k: K, v: V, other: K)
    requires other != k
    ensures Get(Put(d, k, v), other) == Get(d, other)
  {
    if HasKey(d, k) {
      GetReplaceOther(d, k, v, other);
    } else {
      GetAppendOther(d, (k, v), other);
    }
  }

  lemma {:induction false} GetReplaceOther<K, V>(d: Dict<K, V>, k: K, v: V, other: K)
    requires other != k
    ensures Get(Replace(d, k, v), other) == Get(d, other)
  {
    if d != [] {
      assert Replace(d, k, v)[1..] == Replace(d[1..], k, v);
      GetReplaceOther(d[1..], k, v, other);
    }
  }

  lemma {:induction false} GetAppendOther<K, V>(d: Dict<K, V>, kv: (K, V), other: K)
    requires other != kv.0
    ensures Get(d + [kv], other) == Get(d, other)
  {
    if d != [] {
      assert (d + [kv])[1..] == d[1..] + [kv];
      GetAppendOther(d[1..], kv, other);
    }
  }

  /** The values of a dict, in key order: `d.values()`. */
  function Values<K, V>(d: Dict<K, V>): (r: seq<V>)
    ensures |r| == |d| && forall i :: 0 <= i < |d| ==> r[i] == d[i].1
  {
    if d == [] then [] else [d[0].1] + Values(d[1..])
  }
}
