/** Failure-compatible wrappers standing in for Rust's Option, Result and Result<(), E>. */
module Wrappers {

  datatype Option<T> = None | Some(value: T)

  datatype Result<T, E> = Success(value: T) | Failure(error: E)

  /** The shape of Rust's `Result<(), E>`: success carries no value. */
  datatype Outcome<E> = Pass | Fail(error: E)

  /** Looking a key up in a map, as `HashMap::get` does. */
  function Get<K, V>(m: map<K, V>, k: K): (r: Option<V>)
    ensures r.Some? <==> k in m
    ensures r.Some? ==> r.value == m[k]
  {
    if k in m then Some(m[k]) else None
  }
}
