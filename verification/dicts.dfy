/**
 * Python's `dict`: a finite map that remembers the order in which its keys
 * were first inserted. Assigning to a key that is already present changes
 * its value and keeps its position; `pop` removes the key from the order.
 */
module Dicts {

  datatype ODict<K(==), V> = ODict(keys: seq<K>, vals: map<K, V>) {

    /** The keys are listed once each, and exactly the keys of the map are listed. */
    ghost predicate Valid() {
      && (forall i, j | 0 <= i < j < |keys| :: keys[i] != keys[j])
      && (forall k | k in vals :: k in keys)
      && (forall i | 0 <= i < |keys| :: keys[i] in vals)
    }

    /** `d[k] = v` */
    function Put(k: K, v: V): (r: ODict<K, V>)
      requires Valid()
      ensures r.Valid()
      ensures r.vals == vals[k := v]
      ensures k in vals ==> r.keys == keys
      ensures k !in vals ==> r.keys == keys + [k]
    {
      if k in vals then ODict(keys, vals[k := v]) else ODict(keys + [k], vals[k := v])
    }

    /** `d.get(k, default)` */
    function Get(k: K, default: V): V {
      if k in vals then vals[k] else default
    }

    /** `d.pop(k, None)` (the result is dropped): `k` leaves the map and the order. */
    function Pop(k: K): (r: ODict<K, V>)
      requires Valid()
      ensures r.Valid()
      ensures r.vals == vals - {k}
      ensures k !in vals ==> r == this
    {
      if k !in vals then this
      else
        var i := IndexOf(keys, k);
        RemoveAt(keys, i);
        ODict(keys[..i] + keys[i + 1..], vals - {k})
    }
  }

  /** `d.items()`: the pairs in key order. */
  function Items<K(==), V>(d: ODict<K, V>): (r: seq<(K, V)>)
    requires d.Valid()
    ensures |r| == |d.keys|
    ensures forall i | 0 <= i < |r| :: r[i] == (d.keys[i], d.vals[d.keys[i]])
  {
    seq(|d.keys|, i requires 0 <= i < |d.keys| => (d.keys[i], d.vals[d.keys[i]]))
  }

  /** The pairs of `items()` have distinct keys, each one a key of the dict. */
  lemma ItemsKeys<K, V>(d: ODict<K, V>)
    requires d.Valid()
    ensures forall i | 0 <= i < |Items(d)| :: Items(d)[i].0 in d.vals
    ensures forall i, j | 0 <= i < j < |Items(d)| :: Items(d)[i].0 != Items(d)[j].0
  {
  }

  /** `pop` takes the key out of the order and keeps the order of the others. */
  lemma PopKeys<K, V>(d: ODict<K, V>, k: K)
    requires d.Valid() && k in d.vals
    ensures var i := IndexOf(d.keys, k); d.Pop(k).keys == d.keys[..i] + d.keys[i + 1..]
  {
  }

  /** `pop` keeps every other key and its value. */
  lemma PopOther<K, V>(d: ODict<K, V>, h: K, k: K)
    requires d.Valid() && k in d.vals && k != h
    ensures k in d.Pop(h).vals && d.Pop(h).vals[k] == d.vals[k]
  {
  }

  /** The keys of `b` start with the keys of `a`, in the same order. */
  ghost predicate KeysExtend<K, V>(a: ODict<K, V>, b: ODict<K, V>) {
    |a.keys| <= |b.keys| && b.keys[..|a.keys|] == a.keys
  }

  /** Removing the element at `i` from a list without repetitions removes exactly that element. */
  lemma RemoveAt<K>(keys: seq<K>, i: nat)
    requires i < |keys|
    requires forall a, b | 0 <= a < b < |keys| :: keys[a] != keys[b]
    ensures var ks := keys[..i] + keys[i + 1..];
      && (forall a, b | 0 <= a < b < |ks| :: ks[a] != ks[b])
      && (forall x | x in ks :: x in keys && x != keys[i])
      && (forall a | 0 <= a < |keys| && a != i :: keys[a] in ks)
  {
    var ks := keys[..i] + keys[i + 1..];
    assert forall a | 0 <= a < |ks| :: ks[a] == keys[if a < i then a else a + 1];
    forall a | 0 <= a < |keys| && a != i ensures keys[a] in ks {
      assert ks[if a < i then a else a - 1] == keys[a];
    }
  }

  function Empty<K(==), V>(): (r: ODict<K, V>)
    ensures r.Valid() && r.vals == map[]
  {
    ODict([], map[])
  }

  function IndexOf<K(==)>(s: seq<K>, x: K): (i: nat)
    requires x in s
    ensures i < |s| && s[i] == x
  {
    if s[0] == x then 0 else 1 + IndexOf(s[1..], x)
  }

  /** Assigns every pair of `pairs` in order: `for k, v in pairs: d[k] = v`. */
  function PutAll<K(==), V>(d: ODict<K, V>, pairs: seq<(K, V)>): (r: ODict<K, V>)
    requires d.Valid()
    ensures r.Valid()
    ensures KeysExtend(d, r)
    decreases |pairs|
  {
    if pairs == [] then d
    else
      var last := pairs[|pairs| - 1];
      PutAll(d, pairs[..|pairs| - 1]).Put(last.0, last.1)
  }

  /** Assigning one more pair of a list. */
  lemma PutAllSnoc<K, V>(d: ODict<K, V>, pairs: seq<(K, V)>, n: nat)
    requires d.Valid()
    requires n < |pairs|
    ensures PutAll(d, pairs[..n + 1]) == PutAll(d, pairs[..n]).Put(pairs[n].0, pairs[n].1)
  {
    assert pairs[..n + 1][..n] == pairs[..n];
  }

  /** The key of a pair that no later pair assigns again ends up with that pair's value. */
  lemma {:induction false} PutAllLast<K, V>(d: ODict<K, V>, pairs: seq<(K, V)>, i: nat)
    requires d.Valid()
    requires i < |pairs|
    requires forall j | i < j < |pairs| :: pairs[j].0 != pairs[i].0
    ensures pairs[i].0 in PutAll(d, pairs).vals
    ensures PutAll(d, pairs).vals[pairs[i].0] == pairs[i].1
    decreases |pairs|
  {
    if i < |pairs| - 1 {
      PutAllLast(d, pairs[..|pairs| - 1], i);
    }
  }

  /** A key that no pair assigns keeps its presence and its value. */
  lemma {:induction false} PutAllOther<K, V>(d: ODict<K, V>, pairs: seq<(K, V)>, k: K)
    requires d.Valid()
    requires forall j | 0 <= j < |pairs| :: pairs[j].0 != k
    ensures k in PutAll(d, pairs).vals <==> k in d.vals
    ensures k in d.vals ==> PutAll(d, pairs).vals[k] == d.vals[k]
    decreases |pairs|
  {
    if pairs != [] {
      PutAllOther(d, pairs[..|pairs| - 1], k);
    }
  }

  /** Some pair of `pairs` assigns key `k`. */
  ghost predicate Assigns<K, V>(pairs: seq<(K, V)>, k: K) {
    exists j | 0 <= j < |pairs| :: pairs[j].0 == k
  }

  /** The keys afterwards are the keys before plus every assigned key. */
  lemma {:induction false} PutAllKeys<K, V>(d: ODict<K, V>, pairs: seq<(K, V)>, k: K)
    requires d.Valid()
    ensures k in PutAll(d, pairs).vals <==> k in d.vals || Assigns(pairs, k)
    decreases |pairs|
  {
    if pairs != [] {
      var init := pairs[..|pairs| - 1];
      var last := pairs[|pairs| - 1];
      PutAllKeys(d, init, k);
      assert PutAll(d, pairs).vals == PutAll(d, init).vals[last.0 := last.1];
      AssignsSnoc(pairs, k);
    }
  }

  /** A list assigns `k` when its front does or its last pair does. */
  lemma AssignsSnoc<K, V>(pairs: seq<(K, V)>, k: K)
    requires pairs != []
    ensures Assigns(pairs, k) <==> Assigns(pairs[..|pairs| - 1], k) || pairs[|pairs| - 1].0 == k
  {
    var init := pairs[..|pairs| - 1];
    if Assigns(pairs, k) && pairs[|pairs| - 1].0 != k {
      var j :| 0 <= j < |pairs| && pairs[j].0 == k;
      assert init[j].0 == k;
    }
    if Assigns(init, k) {
      var j :| 0 <= j < |init| && init[j].0 == k;
      assert pairs[j].0 == k;
    }
  }

  /** A key present afterwards holds its old value or the value of some pair that assigns it. */
  lemma {:induction false} PutAllValue<K, V>(d: ODict<K, V>, pairs: seq<(K, V)>, k: K)
    requires d.Valid()
    requires k in PutAll(d, pairs).vals
    ensures || (k in d.vals && PutAll(d, pairs).vals[k] == d.vals[k])
            || exists j | 0 <= j < |pairs| :: pairs[j] == (k, PutAll(d, pairs).vals[k])
    decreases |pairs|
  {
    if pairs != [] {
      var init := pairs[..|pairs| - 1];
      var last := pairs[|pairs| - 1];
      if last.0 == k {
        assert pairs[|pairs| - 1] == (k, PutAll(d, pairs).vals[k]);
      } else {
        PutAllValue(d, init, k);
        if !(k in d.vals && PutAll(d, pairs).vals[k] == d.vals[k]) {
          var j :| 0 <= j < |init| && init[j] == (k, PutAll(d, init).vals[k]);
          assert pairs[j] == (k, PutAll(d, pairs).vals[k]);
        }
      }
    }
  }
}
