/** The JavaScript `Map` that `parseFxql` collects its entries in
    (src/fxql.service.ts). A `Map` remembers the order in which keys were
    first inserted: `set` on a new key appends it, `set` on a key already
    there replaces the value and leaves the key where it was, and `values()`
    walks the keys in that order. */
module PairMaps {

  /** A map with its insertion order, as a value. */
  datatype OrderedMap<K, V> = OrderedMap(keys: seq<K>, entries: map<K, V>)

  /** The keys are distinct and are exactly the keys of the entries. */
  predicate Valid<K(==), V>(m: OrderedMap<K, V>) {
    && (forall i, j :: 0 <= i < j < |m.keys| ==> m.keys[i] != m.keys[j])
    && (forall k :: k in m.entries ==> k in m.keys)
    && (forall i :: 0 <= i < |m.keys| ==> m.keys[i] in m.entries)
  }

  /** `Map.prototype.set`. */
  function Put<K(==), V>(m: OrderedMap<K, V>, k: K, v: V): (r: OrderedMap<K, V>)
    requires Valid(m)
    ensures Valid(r)
  {
    OrderedMap(if k in m.entries then m.keys else m.keys + [k], m.entries[k := v])
  }

  /** `Array.from(map.values())`: the values in key order. */
  function Values<K(==), V>(m: OrderedMap<K, V>): (vs: seq<V>)
    requires Valid(m)
    ensures |vs| == |m.keys|
    ensures forall i :: 0 <= i < |vs| ==> vs[i] == m.entries[m.keys[i]]
  {
    seq(|m.keys|, i requires 0 <= i < |m.keys| => m.entries[m.keys[i]])
  }

  /** A fresh map with every pair `set` in order. */
  function PutAll<K(==), V>(pairs: seq<(K, V)>): (m: OrderedMap<K, V>)
    ensures Valid(m)
  {
    if pairs == [] then OrderedMap([], map[])
    else
      var last := pairs[|pairs| - 1];
      Put(PutAll(pairs[..|pairs| - 1]), last.0, last.1)
  }

  /** Where `k` first occurs among the keys of `pairs`, or `|pairs|`. */
  function FirstIndex<K(==), V>(pairs: seq<(K, V)>, k: K): (i: nat)
    ensures i <= |pairs|
    ensures i < |pairs| ==> pairs[i].0 == k
    ensures forall j :: 0 <= j < i ==> pairs[j].0 != k
  {
    if pairs == [] then 0
    else if pairs[0].0 == k then 0
    else 1 + FirstIndex(pairs[1..], k)
  }

  /** Appending a pair does not move the first occurrence of a key that
      was already there. */
  lemma FirstIndexAppend<K, V>(pairs: seq<(K, V)>, p: (K, V), k: K)
    ensures FirstIndex(pairs + [p], k) ==
      if FirstIndex(pairs, k) < |pairs| then FirstIndex(pairs, k)
      else if p.0 == k then |pairs| else |pairs| + 1
  {
    var s := pairs + [p];
    var i := FirstIndex(pairs, k);
    var f := FirstIndex(s, k);
    if i < |pairs| {
      assert s[i].0 == k;
    } else if p.0 == k {
      assert s[|pairs|].0 == k;
    }
  }

  /** The map holds exactly the keys that were set. */
  lemma {:induction false} PutAllHas<K, V>(pairs: seq<(K, V)>, k: K)
    ensures k in PutAll(pairs).entries <==> FirstIndex(pairs, k) < |pairs|
  {
    if pairs != [] {
      var init := pairs[..|pairs| - 1];
      var last := pairs[|pairs| - 1];
      PutAllHas(init, k);
      assert pairs == init + [last];
      FirstIndexAppend(init, last, k);
    }
  }

  /** A later `set` overwrites an earlier one: each key holds the value of
      the last pair that set it. */
  lemma {:induction false} PutAllLastWins<K, V>(pairs: seq<(K, V)>, i: nat)
    requires i < |pairs|
    requires forall j :: i < j < |pairs| ==> pairs[j].0 != pairs[i].0
    ensures pairs[i].0 in PutAll(pairs).entries
    ensures PutAll(pairs).entries[pairs[i].0] == pairs[i].1
  {
    if i < |pairs| - 1 {
      var init := pairs[..|pairs| - 1];
      PutAllLastWins(init, i);
    }
  }

  /** The last pair is the last `set`. */
  lemma PutAllStep<K, V>(pairs: seq<(K, V)>)
    requires pairs != []
    ensures var init := PutAll(pairs[..|pairs| - 1]);
      var last := pairs[|pairs| - 1];
      && PutAll(pairs).entries == init.entries[last.0 := last.1]
      && PutAll(pairs).keys == if last.0 in init.entries then init.keys else init.keys + [last.0]
  {
  }

  /** Every value in the map was set by a pair, the last one with its
      key. */
  lemma {:induction false} PutAllValue<K, V>(pairs: seq<(K, V)>, k: K)
    requires k in PutAll(pairs).entries
    ensures exists i ::
      && 0 <= i < |pairs| && pairs[i] == (k, PutAll(pairs).entries[k])
      && forall j :: i < j < |pairs| ==> pairs[j].0 != k
  {
    var init := pairs[..|pairs| - 1];
    var last := pairs[|pairs| - 1];
    PutAllStep(pairs);
    if last.0 == k {
      assert pairs[|pairs| - 1] == (k, PutAll(pairs).entries[k]);
    } else {
      PutAllValue(init, k);
      var i :|
        && 0 <= i < |init| && init[i] == (k, PutAll(init).entries[k])
        && forall j :: i < j < |init| ==> init[j].0 != k;
      assert pairs[i] == init[i];
      forall j | i < j < |pairs|
        ensures pairs[j].0 != k
      {
        if j < |init| {
          assert pairs[j] == init[j];
        }
      }
    }
  }

  /** Where a key of the map first occurs, after one more `set`. */
  lemma PutAllFirstIndexStep<K, V>(init: seq<(K, V)>, last: (K, V), a: nat)
    requires a < |PutAll(init + [last]).keys|
    ensures var before := PutAll(init);
      var k := PutAll(init + [last]).keys[a];
      && (a < |before.keys| ==> k == before.keys[a] && FirstIndex(init + [last], k) == FirstIndex(init, k) < |init|)
      && (a >= |before.keys| ==> FirstIndex(init + [last], k) == |init|)
  {
    var pairs := init + [last];
    assert pairs[..|pairs| - 1] == init;
    var before := PutAll(init);
    var keys := PutAll(pairs).keys;
    PutAllHas(init, keys[a]);
    FirstIndexAppend(init, last, keys[a]);
    if a < |before.keys| {
      assert keys[a] == before.keys[a] && before.keys[a] in before.entries;
    } else {
      assert last.0 !in before.entries && keys == before.keys + [last.0];
    }
  }

  /** Keys keep the order of their first `set`: the map's keys are ordered
      by where each first occurs among the pairs. */
  lemma {:induction false} PutAllOrder<K, V>(pairs: seq<(K, V)>)
    ensures var keys := PutAll(pairs).keys;
      forall a, b :: 0 <= a < b < |keys| ==> FirstIndex(pairs, keys[a]) < FirstIndex(pairs, keys[b])
  {
    if pairs != [] {
      var init := pairs[..|pairs| - 1];
      var last := pairs[|pairs| - 1];
      var before := PutAll(init);
      var keys := PutAll(pairs).keys;
      assert pairs == init + [last];
      PutAllOrder(init);
      forall a, b | 0 <= a < b < |keys|
        ensures FirstIndex(pairs, keys[a]) < FirstIndex(pairs, keys[b])
      {
        PutAllFirstIndexStep(init, last, a);
        PutAllFirstIndexStep(init, last, b);
      }
    }
  }

  lemma LastKeyIsNew<K, V>(pairs: seq<(K, V)>)
    requires pairs != []
    requires forall i, j :: 0 <= i < j < |pairs| ==> pairs[i].0 != pairs[j].0
    ensures pairs[|pairs| - 1].0 !in PutAll(pairs[..|pairs| - 1]).entries
  {
    var init := pairs[..|pairs| - 1];
    var last := pairs[|pairs| - 1];
    PutAllHas(init, last.0);
    assert forall j :: 0 <= j < |init| ==> init[j].0 != last.0;
  }

  /** With no key set twice, the keys come out as the pairs went in. */
  lemma {:induction false} PutAllDistinctKeys<K, V>(pairs: seq<(K, V)>)
    requires forall i, j :: 0 <= i < j < |pairs| ==> pairs[i].0 != pairs[j].0
    ensures var m := PutAll(pairs);
      |m.keys| == |pairs| && forall i :: 0 <= i < |pairs| ==> m.keys[i] == pairs[i].0
  {
    if pairs != [] {
      var init := pairs[..|pairs| - 1];
      var last := pairs[|pairs| - 1];
      var before := PutAll(init);
      assert forall j :: 0 <= j < |init| ==> init[j] == pairs[j];
      PutAllDistinctKeys(init);
      LastKeyIsNew(pairs);
      PutAllStep(pairs);
      var keys := PutAll(pairs).keys;
      assert keys == before.keys + [last.0];
      forall i | 0 <= i < |pairs|
        ensures keys[i] == pairs[i].0
      {
        if i < |init| {
          assert keys[i] == before.keys[i];
        }
      }
    }
  }

  /** With no key set twice, the keys and the values come out exactly as
      the pairs went in. */
  lemma PutAllDistinct<K, V>(pairs: seq<(K, V)>)
    requires forall i, j :: 0 <= i < j < |pairs| ==> pairs[i].0 != pairs[j].0
    ensures var m := PutAll(pairs);
      && |m.keys| == |pairs|
      && forall i :: 0 <= i < |pairs| ==> m.keys[i] == pairs[i].0 && Values(m)[i] == pairs[i].1
  {
    PutAllDistinctKeys(pairs);
    forall i | 0 <= i < |pairs|
      ensures Values(PutAll(pairs))[i] == pairs[i].1
    {
      PutAllLastWins(pairs, i);
    }
  }

  /** The same `Map`, as an object whose methods update it in place. */
  class PairMap<K(==), V> {
    var keys: seq<K>
    var entries: map<K, V>

    function Model(): OrderedMap<K, V>
      reads this
    {
      OrderedMap(keys, entries)
    }

    ghost predicate Ready()
      reads this
    {
      Valid(Model())
    }

    /** `new Map()` */
    constructor ()
      ensures Ready() && keys == [] && entries == map[]
    {
      keys := [];
      entries := map[];
    }

    /** `map.set(k, v)` */
    method Set(k: K, v: V)
      requires Ready()
      modifies this
      ensures Ready()
      ensures Model() == Put(old(Model()), k, v)
    {
      if k !in entries {
        keys := keys + [k];
      }
      entries := entries[k := v];
    }

    /** `Array.from(map.values())` */
    method ValueList() returns (vs: seq<V>)
      requires Ready()
      ensures vs == Values(Model())
    {
      vs := [];
      var i := 0;
      while i < |keys|
        invariant 0 <= i <= |keys|
        invariant vs == Values(Model())[..i]
      {
        vs := vs + [entries[keys[i]]];
        i := i + 1;
      }
    }
  }
}
