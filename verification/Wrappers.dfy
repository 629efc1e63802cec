/** The optional value used where the source returns None or looks up a missing key. */
module Wrappers {

  datatype Option<+T> = None | Some(value: T)

  /** `m.get(k)`. */
  function Get<K, V>(m: map<K, V>, k: K): Option<V> {
    if k in m then Some(m[k]) else None
  }
}
