/** The two result shapes the models share. */
module Wrappers {

  /** A value or its absence: the source's `Option`. */
  datatype Option<+T> = None | Some(value: T)

  /** A value or a failure: the source's `Result`. */
  datatype Result<+T, +E> = Success(value: T) | Failure(error: E)
}
