/** Failure-carrying wrappers used by the parsers of the model. */
module Outcomes {

  /** A value that may be absent (Python's "raised, caught and skipped"). */
  datatype Option<+T> = None | Some(value: T)

  /** A value or the error the Python code would raise instead. */
  datatype Result<+T, +E> = Ok(value: T) | Err(error: E)
}
