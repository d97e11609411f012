/** Failure-carrying wrappers shared by the store and the pages. */
module Results {

  datatype Option<T> = None | Some(value: T)

  /** The settled state of a promise: fulfilled with a value or rejected with an error. */
  datatype Result<T, E> = Ok(value: T) | Err(error: E)
}
