/** Failure-compatible wrappers shared by the other modules. */
module Wrappers {
  /** A value that may be absent: a missing key, a loader that threw, a URI that does not decode. */
  datatype Option<T> = None | Some(value: T)

  /** The outcome of an operation that can fail with a message. */
  datatype Result<T, E> = Ok(value: T) | Err(error: E)
}
