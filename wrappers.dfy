/** Option and Result, the shapes used for Python's `None` and for the
    exceptions the relay can raise. */
module Wrappers {

  datatype Option<+T> = None | Some(value: T)

  datatype Result<+T, +E> = Success(value: T) | Failure(error: E)
}
