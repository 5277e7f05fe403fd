/** Failure-carrying wrappers shared by the lexer, the parser and the evaluator. */
module Results {

  /** A value that may be absent: Python's `Optional[T]`. */
  datatype Option<+T> = None | Some(value: T)

  /** Either a value or an error; the evaluator's and the driver's outcome. */
  datatype Result<+T, +E> = Ok(value: T) | Err(error: E)
}
