/** Option and Result, the error-carrying values the model uses where the
    source raises an exception or returns a not-found response. */
module Wrappers {

  datatype Option<+T> = None | Some(value: T)

  datatype Result<+R, +E> = Success(value: R) | Failure(error: E)
}
