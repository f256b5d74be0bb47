/** Failure-carrying values: Python exceptions become `None` or `Err`. */
module Results {

  datatype Option<T> = None | Some(value: T)

  datatype Result<T, E> = Ok(value: T) | Err(error: E)
}
