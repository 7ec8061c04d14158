/** Option and Result, the two shapes Python's `None`-or-value returns and
    raise-or-return calls take in this model. */
module Wrappers {

  datatype Option<+T> = None | Some(value: T)

  datatype Result<+R, +E> = Success(value: R) | Failure(error: E)

  /** `d.get(k)`: the value stored under `k`, or None when `k` is absent. */
  function Get<K, V>(m: map<K, V>, k: K): Option<V>
  {
    if k in m then Some(m[k]) else None
  }
}
