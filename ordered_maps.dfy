/**
 * A JavaScript `Map<string, V>` as a value: its keys in insertion order and
 * the entry stored under each key.  Iterating a `Map` visits `keys` in order.
 */
module OrderedMaps {
  import opened Sequences

  datatype OrderedMap<V> = OrderedMap(keys: seq<string>, values: map<string, V>) {

    /** Each key is inserted once, and the stored entries are those of the listed keys. */
    predicate Valid() {
      Distinct(keys) && values.Keys == Elems(keys)
    }

    /** `Map.prototype.set`: a new key goes last, an existing key keeps its place. */
    function Set(k: string, v: V): (r: OrderedMap<V>)
      requires Valid()
      ensures r.Valid()
      ensures r.values == values[k := v]
      ensures k in values ==> r.keys == keys
      ensures k !in values ==> r.keys == keys + [k]
    {
      if k in values then OrderedMap(keys, values[k := v])
      else
        assert Elems(keys + [k]) == Elems(keys) + {k};
        OrderedMap(keys + [k], values[k := v])
    }

    /** `Map.prototype.delete`: the key and its entry go, the other keys keep their order. */
    function Delete(k: string): (r: OrderedMap<V>)
      requires Valid()
      ensures r.Valid()
      ensures r.values == values - {k}
      ensures r.keys == Remove(keys, k)
    {
      var ks := Remove(keys, k);
      assert Elems(ks) == Elems(keys) - {k};
      OrderedMap(ks, values - {k})
    }
  }

  /** Setting a new key to a list without repetitions keeps a dependency map, and every other entry. */
  lemma SetNewKey(m: DependencyMap, k: string, ds: seq<string>)
    requires IsDependencyMap(m) && k !in m.values && Distinct(ds)
    ensures var r := m.Set(k, ds);
      IsDependencyMap(r) && r.keys == m.keys + [k] && r.values[k] == ds &&
      forall j :: j in m.values ==> r.values[j] == m.values[j]
  {
    var r := m.Set(k, ds);
    forall j | j in r.values ensures Distinct(r.values[j]) {
      if j != k {
        assert r.values[j] == m.values[j];
      }
    }
  }

  /** `new Map()`. */
  function EmptyMap<V>(): (r: OrderedMap<V>)
    ensures r.Valid() && r.keys == [] && r.values == map[]
  {
    OrderedMap([], map[])
  }

  /**
   * `Map<string, Set<string>>`: each package name with the names it depends on,
   * in the iteration order of the `Set`.
   */
  type DependencyMap = OrderedMap<seq<string>>

  /** A well-formed dependency map: a valid ordered map whose name lists are sets. */
  predicate IsDependencyMap(m: DependencyMap) {
    m.Valid() && forall k :: k in m.values ==> Distinct(m.values[k])
  }
}
