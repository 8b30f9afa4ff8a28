/** `Option` and `Result`, shared by the other modules. */
module Wrappers {

  /** A value that may be absent (JavaScript `undefined` / `null`). */
  datatype Option<+T> = None | Some(value: T)

  /** The outcome of an operation that either produces a value or an error message. */
  datatype Result<+T, +E> = Success(value: T) | Failure(error: E)
}
