/** Success and failure outcomes used in place of Python's exceptions. */
module Results {

  /** A value or nothing: the outcome of taking a minimum over a collection
      that may be empty. */
  datatype Option<+T> = None | Some(value: T)

  /** A value or the error that the Python code would raise. */
  datatype Result<+T, +E> = Ok(value: T) | Err(error: E)
}
