/** Absence and failure signals shared by the model.
    `Option` stands for Java's nullable return values (`Map.put`, `Map.remove`)
    and for nullable arguments; `Result` stands for a constructor that may fail
    an assertion. */
module Wrappers {

  datatype Option<+T> = None | Some(value: T)

  datatype Result<+R, +E> = Success(value: R) | Failure(error: E)

  /** Looks a key up in a map, `null` when it is absent (Java's `Map.get`). */
  function Get<K, V>(m: map<K, V>, k: K): (r: Option<V>)
    ensures r.Some? <==> k in m
    ensures r.Some? ==> r.value == m[k]
  {
    if k in m then Some(m[k]) else None
  }
}
