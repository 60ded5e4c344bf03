/** Success/failure values standing in for the exceptions the Python code raises. */
module Results {

  /** The value a computation returned, or the error it raised. */
  datatype Result<+T, +E> = Success(value: T) | Failure(error: E)

  /** A value that may be absent (a parse that did not succeed). */
  datatype Option<+T> = None | Some(value: T)
}
