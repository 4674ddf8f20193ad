/** Python's "maybe `None`" and "returned or raised", written as plain values. */
module PyValues {

  /** A value that may be missing, as `dict.get(key)` returns it. */
  datatype Option<T> = None | Some(value: T)

  /** The value when present, `fallback` when missing: the second argument of `dict.get`. */
  function OrDefault<T>(x: Option<T>, fallback: T): T {
    if x.Some? then x.value else fallback
  }

  /** A call that returned `value`, or raised with `error`. */
  datatype Result<R, E> = Success(value: R) | Failure(error: E)
}
