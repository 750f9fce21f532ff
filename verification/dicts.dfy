/**
 * Insertion-ordered dictionaries with integer keys, the way Python's `dict`
 * behaves: assigning to a key that is already present replaces its value and
 * keeps its position, assigning to a new key appends it at the end, and
 * iteration follows insertion order.
 */
module Dicts {

  datatype Dict<V> = Dict(keys: seq<int>, vals: map<int, V>) {

    /** Every key is listed once, and exactly the keys of the map are listed. */
    ghost predicate Valid() {
      && (forall a, b | 0 <= a < b < |keys| :: keys[a] != keys[b])
      && (forall k :: k in vals <==> k in keys)
      && (forall a | 0 <= a < |keys| :: keys[a] in vals)
    }

    /** `d[k] = v` */
    function Put(k: int, v: V): (d: Dict<V>)
      requires Valid()
      ensures d.Valid()
      ensures k in d.vals && d.vals[k] == v
      ensures forall k' | k' != k :: (k' in d.vals <==> k' in vals) && (k' in vals ==> d.vals[k'] == vals[k'])
      ensures k in vals ==> d.keys == keys
      ensures k !in vals ==> d.keys == keys + [k]
    {
      if k in vals then Dict(keys, vals[k := v]) else Dict(keys + [k], vals[k := v])
    }
  }

  /** `dict()` */
  function Empty<V>(): (d: Dict<V>)
    ensures d.Valid() && |d.keys| == 0 && d.vals == map[]
  {
    Dict([], map[])
  }

  /** A key listed in a valid dictionary is listed at exactly one position. */
  lemma KeyPosition<V>(d: Dict<V>, a: nat, b: nat)
    requires d.Valid() && a < |d.keys| && b < |d.keys| && d.keys[a] == d.keys[b]
    ensures a == b
  {
  }
}
