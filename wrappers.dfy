/** Optional values and results with an error, shared by every module of the model. */
module Wrappers {
  /** A value that may be absent: Go's `(value, ok)` pairs and nil references. */
  datatype Option<+T> = None | Some(value: T)

  /** A value or the error that stopped its computation: Go's `(value, error)` pairs. */
  datatype Result<+T, +E> = Ok(value: T) | Err(error: E)
}
