/** Option and Result, for Ruby's nil and raised exceptions. */
module Wrappers {

  /** A value or its absence; `None` plays the role of Ruby's `nil`. */
  datatype Option<+T> = None | Some(value: T)

  /** The outcome of an operation that may raise. */
  datatype Result<+T, +E> = Success(value: T) | Failure(error: E)
}
