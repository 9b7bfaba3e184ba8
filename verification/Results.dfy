/** Failure-carrying values used in place of the exceptions thrown by the tool. */
module Results {

  /** A value that may be absent, as when an inverse does not exist or a text does not parse. */
  datatype Option<+T> = None | Some(value: T)

  /** The outcome of an operation that either yields a value or fails with an error tag. */
  datatype Result<+T, +E> = Ok(value: T) | Err(error: E)
}
