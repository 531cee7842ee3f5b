/** Failure-carrying result types used throughout the model. */
module Wrappers {

  /** A value that may be absent (the source's `null` / `undefined`). */
  datatype Option<+T> = None | Some(value: T)

  /** The outcome of an operation that can fail with an error of type `E`
      (the source's thrown `Error` or early error response). */
  datatype Result<+T, +E> = Ok(value: T) | Err(error: E)
}
