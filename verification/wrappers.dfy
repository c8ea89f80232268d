/** Option and Result, the two wrappers the model uses for absent values and raised exceptions. */
module Wrappers {

  /** A value that may be absent: Python's `None` or a present value. */
  datatype Option<+T> = None | Some(value: T)

  /** The outcome of a computation that may raise: a value or the exception it raised. */
  datatype Result<+R, +E> = Success(value: R) | Failure(error: E)
}
