/** Failure-carrying result types shared by the lexer model. */
module Results {

  /** A value that may be absent; models Python's `None`. */
  datatype Option<+T> = None | Some(value: T)

  /** The outcome of a computation that can fail with an error of type `E`. */
  datatype Result<+T, +E> = Success(value: T) | Failure(error: E)
}
