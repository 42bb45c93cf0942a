/** Option and Result values shared by every module of the model. */
module Base {
  datatype Option<T> = None | Some(value: T)

  /** The outcome of an operation that can throw: either a value or the error it throws. */
  datatype Result<T, E> = Ok(value: T) | Err(error: E)
}
