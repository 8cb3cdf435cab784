/** Failure-carrying wrappers used throughout the model. */
module Wrappers {

  /** A value that may be absent; stands for Go's nil pointer or "not found". */
  datatype Option<+T> = None | Some(value: T)

  /** The `(value, error)` pair of a Go call: exactly one side is meaningful. */
  datatype Result<+R, +E> = Success(value: R) | Failure(error: E)
}
