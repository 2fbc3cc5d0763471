/** Datatypes shared by the models. */
module Common {
  datatype Option<+T> = None | Some(value: T)

  /** The value stored under a key, if the key is present. */
  function Lookup<K, V>(m: map<K, V>, k: K): (r: Option<V>)
    ensures r.Some? <==> k in m
    ensures r.Some? ==> r.value == m[k]
  {
    if k in m then Some(m[k]) else None
  }
}
