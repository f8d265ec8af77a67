/**
 * A JavaScript `Map<string, V>`: lookups by key, iteration in insertion
 * order, and `set` that keeps the position of a key already present.
 */
module OrderedMaps {

  datatype OrderedMap<V> = OrderedMap(keys: seq<string>, values: map<string, V>) {

    /** Every key once, and exactly the keys that have a value. */
    ghost predicate Valid()
    {
      && (forall i, j :: 0 <= i < j < |keys| ==> keys[i] != keys[j])
      && (forall k :: k in values <==> k in keys)
    }

    predicate Has(k: string)
    {
      k in values
    }

    /** `map.set(k, v)` */
    function Set(k: string, v: V): (m: OrderedMap<V>)
      requires Valid()
      ensures m.Valid()
      ensures m.values == values[k := v]
      ensures k in values ==> m.keys == keys
      ensures k !in values ==> m.keys == keys + [k]
    {
      if k in values then OrderedMap(keys, values[k := v]) else OrderedMap(keys + [k], values[k := v])
    }

    /** What iterating the map yields: its `[key, value]` pairs in insertion order. */
    function Entries(): (es: seq<(string, V)>)
      requires Valid()
      ensures |es| == |keys|
      ensures forall i :: 0 <= i < |es| ==> es[i].0 == keys[i] && es[i].1 == values[keys[i]]
      ensures forall k :: k in values ==> (k, values[k]) in es
    {
      seq(|keys|, i requires 0 <= i < |keys| => (keys[i], values[keys[i]]))
    }
  }

  function Empty<V>(): (m: OrderedMap<V>)
    ensures m.Valid() && m.keys == []
  {
    OrderedMap([], map[])
  }

  /** Setting a key to the value it already has changes nothing. */
  lemma SetSameValue<V>(m: OrderedMap<V>, k: string)
    requires m.Valid() && k in m.values
    ensures m.Set(k, m.values[k]) == m
  {
    assert m.values[k := m.values[k]] == m.values;
  }
}
