/** Failure-carrying values shared by the other modules. */
module Wrappers {

  /** A value that may be absent, e.g. a dictionary lookup that raised KeyError. */
  datatype Option<+T> = None | Some(value: T)

  /** Either a value or the error the Python code would have raised. */
  datatype Result<+T, +E> = Ok(value: T) | Err(error: E)
}
