/** A `Map` that iterates in insertion order: overwriting a present key keeps its place. */
module OrderedMaps {
  import opened Ids

  datatype OMap<K(==), V> = OMap(keys: seq<K>, at: map<K, V>)

  ghost predicate ValidMap<K(!new), V>(m: OMap<K, V>) {
    Distinct(m.keys) && forall k :: k in m.keys <==> k in m.at
  }

  function Empty<K(==), V>(): OMap<K, V> {
    OMap([], map[])
  }

  function Set<K(==, !new), V>(m: OMap<K, V>, k: K, v: V): (r: OMap<K, V>)
    ensures ValidMap(m) ==> ValidMap(r)
  {
    OMap(AddOnce(m.keys, k), m.at[k := v])
  }

  /** The values, in insertion order of their keys. */
  function Values<K(==), V>(m: OMap<K, V>): seq<V>
    requires forall k <- m.keys :: k in m.at
  {
    seq(|m.keys|, i requires 0 <= i < |m.keys| => m.at[m.keys[i]])
  }
}
