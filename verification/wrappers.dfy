/** Failure-compatible result types shared by the model. */
module Wrappers {

  /** A value that may be absent (Python's `None`). */
  datatype Option<+T> = None | Some(value: T)

  /** Either a computed value or the error an operation raised instead. */
  datatype Result<+R, +E> = Success(value: R) | Failure(error: E)
}
