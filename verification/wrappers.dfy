/** Failure-compatible wrappers used across the memory-store model. */
module Wrappers {

  /** An optional value: the model's stand-in for Python's `None`. */
  datatype Option<+T> = None | Some(value: T)

  /** The result of an operation that may raise in the source. */
  datatype Result<+R, +E> = Success(value: R) | Failure(error: E)
}
