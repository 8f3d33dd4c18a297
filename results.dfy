/** Option and Result values for the error paths of the model (exceptions and failed assertions of the program). */
module Results {
  datatype Option<T> = None | Some(value: T)

  datatype Result<T, E> = Ok(value: T) | Err(error: E)
}
