/** Optional values, results with an error, and the one exception the
    Python code raises. */
module Wrappers {

  datatype Option<+T> = None | Some(value: T)

  datatype Result<+R, +E> = Success(value: R) | Failure(error: E)

  /** A Python `ValueError` with its message. */
  datatype Error = ValueError(message: string)
}
