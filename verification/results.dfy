/** Optional values and success-or-error outcomes, standing in for Java's
    nullable references and thrown exceptions. */
module Results {

  /** A value that may be absent: `None` plays the part of Java's `null`. */
  datatype Option<+T> = None | Some(value: T)

  /** The outcome of an operation that either returns a value or throws. */
  datatype Result<+T, +E> = Ok(value: T) | Err(error: E)
}
