/** Option and Result types used throughout the router model. */
module Wrappers {

  /** A value that may be absent: PHP's `null` versus a present value. */
  datatype Option<+T> = None | Some(value: T)

  /** The outcome of an operation that either yields a value or raises an error. */
  datatype Result<+R, +E> = Success(value: R) | Failure(error: E)
}
