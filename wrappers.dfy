/** Optional values and results with an error, used where the Java code
    returns null or throws. */
module Wrappers {

  /** A value that may be absent (a Java reference that may be null). */
  datatype Option<+T> = None | Some(value: T)

  /** The outcome of an operation that may fail with an exception. */
  datatype Result<+T, +E> = Ok(value: T) | Err(error: E)
}
