/** Optional values and the failures of the curvature engine. */
module Results {

  datatype Option<T> = None | Some(value: T)

  /** The Python exceptions the core can raise on well-typed input.
      KeyNotFound: a dictionary lookup of a key that is not there.
      IndexOutOfRange: a list read at a position past its end.
      AttributeMissing: a call of a method the object does not have. */
  datatype Error = KeyNotFound | IndexOutOfRange | AttributeMissing

  datatype Result<T> = Ok(value: T) | Err(error: Error)
}
