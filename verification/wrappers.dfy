/** Failure-carrying result types shared by the whole model. */
module Wrappers {

  /** An optional value: Go's "maybe nil" error or absent entry. */
  datatype Option<+T> = None | Some(value: T)

  /** Either a value or the error that prevented computing it. */
  datatype Result<+T, +E> = Success(value: T) | Failure(error: E)
}
