/** Failure-carrying datatypes shared by the Connect Four model. */
module Wrappers {

  /** A value that may be absent (Python's `None`). */
  datatype Option<+T> = None | Some(value: T)

  /** Either a value or the error the Python code would raise or report. */
  datatype Result<+T, +E> = Success(value: T) | Failure(error: E)
}
