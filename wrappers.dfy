/** Optional values and success/failure results used by the chord model. */
module Wrappers {

  /** A value that may be absent: a request-body field that was not sent (or was null). */
  datatype Option<+T> = None | Some(value: T)

  /** The outcome of an operation that can fail with an error of type E. */
  datatype Result<+R, +E> = Ok(value: R) | Err(error: E)
}
