/** Failure-compatible wrappers for the reader's nullable results and thrown errors. */
module Wrappers {

  /** A value or its absence (the reader's `null`). */
  datatype Option<+T> = None | Some(value: T)

  /** A value or the error the reader would throw. */
  datatype Result<+T, +E> = Ok(value: T) | Err(error: E)
}
