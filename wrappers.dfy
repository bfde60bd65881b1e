/** Option and Result: the failure-carrying values the models return where the
    source raises an exception or reads a missing value. */
module Wrappers {

  datatype Option<+T> = None | Some(value: T)

  datatype Result<+T, +E> = Success(value: T) | Failure(error: E)
}
