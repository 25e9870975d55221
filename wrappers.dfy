/** Option and Result values standing in for Python's `None` and raised exceptions. */
module Wrappers {

  datatype Option<+T> = None | Some(value: T)

  /** `Err` carries the message of the exception the Python code raises. */
  datatype Result<+R, +E> = Ok(value: R) | Err(error: E)
}
