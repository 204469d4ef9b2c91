/** The optional value used wherever the source returns `undefined` or a falsy result. */
module Options {

  datatype Option<+T> = None | Some(value: T) {

    /** The value, or the given default when there is none (JavaScript's `x ?? d`). */
    function GetOr(default: T): T {
      match this
      case Some(v) => v
      case None => default
    }
  }

  /** `m.get(k)` of a JavaScript Map modelled as a Dafny map. */
  function Get<K, V>(m: map<K, V>, k: K): (r: Option<V>)
    ensures r.Some? <==> k in m
    ensures r.Some? ==> r.value == m[k]
  {
    if k in m then Some(m[k]) else None
  }
}
