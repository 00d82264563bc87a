/** Option and Result, used for the cleaner's error paths. */
module Wrappers {

  datatype Option<+T> = None | Some(value: T)

  /** A value, or the text of the exception that would have been raised instead. */
  datatype Result<+R, +E> = Success(value: R) | Failure(error: E)
}
