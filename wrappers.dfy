/** Failure-carrying datatypes shared by the atlas modules. */
module Wrappers {

  /** A value that may be absent, as a Go `(T, ok bool)` pair. */
  datatype Option<+T> = None | Some(value: T)

  /** A value or an error, as a Go `(T, error)` pair. */
  datatype Result<+T, +E> = Success(value: T) | Failure(error: E)
}
