/** Option and Result, the two failure-carrying shapes the model uses in place of
    Python's `None` returns and raised exceptions. */
module Base {

  /** A value that may be absent (Python's `Optional[T]`). */
  datatype Option<+T> = None | Some(value: T)

  /** Either a value or the error that a Python call would have raised. */
  datatype Result<+T, +E> = Ok(value: T) | Err(error: E)
}
