/** Failure-carrying results shared by every module: the Python code signals
    errors by raising an exception of a module-specific class. */
module Base {
  datatype Option<+T> = None | Some(value: T)

  datatype Result<+T, +E> = Ok(value: T) | Err(error: E)
}
