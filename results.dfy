/** Success/failure wrappers shared by the model's modules. */
module Results {

  /** A value that may be missing. */
  datatype Option<T> = None | Some(value: T)

  /** The outcome of an operation that can raise: a value, or the error raised. */
  datatype Result<T, E> = Ok(value: T) | Err(error: E)
}
