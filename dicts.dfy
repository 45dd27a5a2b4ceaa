/** A Python dict with string keys: a map plus the order in which its keys were
    first inserted, which is the order `dict.items()` iterates in. */
module Dicts {

  datatype Dict<V> = Dict(order: seq<string>, entries: map<string, V>) {

    /** Each key appears once in the iteration order, and the keys iterated
        are exactly the keys stored. */
    ghost predicate Valid() {
      && (forall i, j :: 0 <= i < j < |order| ==> order[i] != order[j])
      && (forall k :: k in entries <==> k in order)
    }

    /** `d[k] = v`: a new key goes to the end of the order; an existing key
        keeps its place and takes the new value. */
    function Put(k: string, v: V): (d: Dict<V>)
      requires Valid()
      ensures d.Valid()
      ensures d.entries == entries[k := v]
      ensures k in entries ==> d.order == order
      ensures k !in entries ==> d.order == order + [k]
    {
      if k in entries then Dict(order, entries[k := v]) else Dict(order + [k], entries[k := v])
    }

    /** `d.items()`: the key-value pairs in iteration order. */
    function Items(): (its: seq<(string, V)>)
      requires Valid()
      ensures |its| == |order|
    {
      seq(|order|, i requires 0 <= i < |order| => (order[i], entries[order[i]]))
    }
  }

  /** `{k: v}` */
  function Singleton<V>(k: string, v: V): (d: Dict<V>)
    ensures d.Valid() && d.order == [k] && d.entries == map[k := v]
  {
    Dict([k], map[k := v])
  }
}
