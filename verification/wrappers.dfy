/** Failure-carrying values: `Option` for a value that may be absent (a Python
    argument that is not a string), `Result` for an operation that may raise. */
module Wrappers {

  datatype Option<+T> = None | Some(value: T)

  datatype Result<+R, +E> = Success(value: R) | Failure(error: E)
}
