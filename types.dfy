/**
 * Shared vocabulary of the model: Go's `byte`, nil-able references and a
 * total lookup on maps.
 */
module Types {
  /** A Go `byte` (`uint8`). */
  type byte = x: int | 0 <= x < 256

  /** A Go pointer or interface value that may be nil. */
  datatype Option<T> = None | Some(value: T)

  /** Map lookup that answers `None` (nil) for an absent key. */
  function MapGet<K, T>(m: map<K, T>, k: K): (r: Option<T>)
  {
    if k in m then Some(m[k]) else None
  }
}
