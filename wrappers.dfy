/** Failure-compatible wrappers: a possibly-null reference, and a result that
    is either a value or a raised language-level error. */
module Wrappers {

  datatype Option<+T> = None | Some(value: T)

  datatype Result<+T, +E> = Success(value: T) | Failure(error: E)
}
