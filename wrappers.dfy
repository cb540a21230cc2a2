/**
 * Option and Result values shared by the other modules: a Python `None`
 * becomes `None`, a raised exception becomes `Failure`.
 */
module Wrappers {

  datatype Option<+T> = None | Some(value: T)

  datatype Result<+R, +E> = Success(value: R) | Failure(error: E)

  /** One octet of a Python `bytes` or `bytearray`. */
  type byte = b: int | 0 <= b < 256

  /** `m.get(k)` of a Python dict: the value under `k`, or `None`. */
  function Get<K, V>(m: map<K, V>, k: K): (r: Option<V>)
    ensures r.Some? <==> k in m
    ensures r.Some? ==> r.value == m[k]
  {
    if k in m then Some(m[k]) else None
  }
}
