/**
 * A JavaScript `Map` with string keys: lookups as in a Dafny map, plus the
 * insertion order that `for…of`, `keys()` and `values()` follow.
 */
module OrderedMaps {
  import opened Seqs
  import opened Options

  datatype OrderedMap<V> = OrderedMap(keys: seq<string>, values: map<string, V>) {

    /** Each key is listed once, and exactly the mapped keys are listed. */
    ghost predicate Valid() {
      NoDuplicates(keys) && forall k :: k in values <==> k in keys
    }

    function Get(k: string): Option<V> {
      Options.Get(values, k)
    }

    predicate Has(k: string) {
      k in values
    }

    /** `m.set(k, v)`: a present key keeps its place, a new one goes last. */
    function Set(k: string, v: V): (r: OrderedMap<V>)
      requires Valid()
      ensures r.Valid()
      ensures r.Get(k) == Some(v)
      ensures forall j :: j != k ==> r.Get(j) == Get(j)
    {
      OrderedMap(AddLast(keys, k), values[k := v])
    }

    /** `m.delete(k)`: the key leaves the order, the rest keep theirs. */
    function Delete(k: string): (r: OrderedMap<V>)
      requires Valid()
      ensures r.Valid()
      ensures r.Get(k) == None
      ensures forall j :: j != k ==> r.Get(j) == Get(j)
    {
      OrderedMap(RemoveValue(keys, k), values - {k})
    }

    /** `[...m.values()]`. */
    function Values(): (vs: seq<V>)
      requires Valid()
      ensures |vs| == |keys|
      ensures forall i :: 0 <= i < |keys| ==> vs[i] == values[keys[i]]
    {
      ValuesAt(keys, values)
    }
  }

  function ValuesAt<V>(ks: seq<string>, values: map<string, V>): (vs: seq<V>)
    requires forall k :: k in ks ==> k in values
    ensures |vs| == |ks|
    ensures forall i :: 0 <= i < |ks| ==> vs[i] == values[ks[i]]
  {
    if ks == [] then [] else [values[ks[0]]] + ValuesAt(ks[1..], values)
  }

  /** `new Map()`. */
  function Empty<V>(): (m: OrderedMap<V>)
    ensures m.Valid() && m.keys == []
  {
    OrderedMap([], map[])
  }

  /**
   * `new Map(entries)`: the entries set in turn, so a repeated key takes its
   * last value and keeps its first place.
   */
  function FromEntries<V>(entries: seq<(string, V)>): (m: OrderedMap<V>)
    ensures m.Valid()
    ensures m.values.Keys == set i | 0 <= i < |entries| :: entries[i].0
  {
    if entries == [] then Empty()
    else
      var front := entries[..|entries| - 1];
      var init := FromEntries(front);
      var last := entries[|entries| - 1];
      assert (set i | 0 <= i < |entries| :: entries[i].0)
          == (set i | 0 <= i < |front| :: front[i].0) + {last.0};
      init.Set(last.0, last.1)
  }
}
