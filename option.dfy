/** Optional values, as the source's `variant<unit, V>` and its null `V*` results. */
module Optional {

  /** The source's `variant<unit, V>`: no value, or a value. */
  datatype Option<T> = None | Some(value: T)

  /** The optional value a map holds for a key (the source returns a null `V*` when there is none). */
  function Get<K, V>(m: map<K, V>, k: K): (r: Option<V>)
  {
    if k in m then Some(m[k]) else None
  }
}
