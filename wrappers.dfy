/** Option and Result values used for the error paths of the dashboard's
    Python code (exceptions, `None` results). */
module Wrappers {

  datatype Option<+T> = None | Some(value: T)

  datatype Result<+R, +E> = Success(value: R) | Failure(error: E)
}
