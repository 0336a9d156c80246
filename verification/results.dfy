/**
 Failure-carrying values used across the model. The Python code signals
 absence with `None` and failure with exceptions that are caught and logged;
 here both become ordinary values.
 */
module Results {

  /** `None` or a present value, like Python's `Optional`. */
  datatype Option<+T> = None | Some(value: T)

  /** The outcome of a step that can fail with a typed error. */
  datatype Result<+T, +E> = Ok(value: T) | Err(error: E)
}
