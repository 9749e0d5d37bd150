/** Failure-compatible wrappers shared by the other modules. */
module Wrappers {

  /** A value that may be missing: a camera read that failed, a background never captured. */
  datatype Option<+T> = None | Some(value: T)

  /** The outcome of an operation that the script would abort with an exception. */
  datatype Result<+T, +E> = Ok(value: T) | Err(error: E)
}
