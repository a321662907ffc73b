/** Optional values and the outcome of an operation that can throw. */
module Results {
  datatype Option<T> = None | Some(value: T)

  /** A thrown error is kept as its message. */
  datatype Result<T> = Ok(value: T) | Err(message: string)
}
