/** Failure-carrying wrappers used throughout the model in place of Go's
    multiple return values `(T, error)` and nil pointers. */
module Wrappers {

  /** An optional value: Go's `*T` that may be nil, or a lookup that may miss. */
  datatype Option<+T> = None | Some(value: T)

  /** A value or an error: Go's `(T, error)` pair with exactly one side meaningful. */
  datatype Result<+R, +E> = Success(value: R) | Failure(error: E)
}
