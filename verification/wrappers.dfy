/** Option and Result values used for the absent results and the raised errors of the Python code. */
module Wrappers {

  /** A value that may be absent (Python's `None`). */
  datatype Option<+T> = None | Some(value: T)

  /** Either a value or the error the Python code would raise. */
  datatype Result<+T, +E> = Ok(value: T) | Err(error: E)
}
