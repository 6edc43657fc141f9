/** The two result shapes shared by the model: a value that may be missing, and a
    value or the error that took its place. */
module Wrappers {
  datatype Option<+T> = None | Some(value: T)

  datatype Result<+T, +E> = Success(value: T) | Failure(error: E)
}
