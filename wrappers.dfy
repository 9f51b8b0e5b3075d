/** Failure-carrying result types used throughout the model in place of the
    source's exceptions and end() iterators. */
module Wrappers {

  datatype Option<+T> = None | Some(value: T)

  datatype Result<+R, +E> = Success(value: R) | Failure(error: E)
}
