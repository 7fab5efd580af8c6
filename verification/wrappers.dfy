/** Option and Result: a missing value (Python's None, a pandas NaN cell) and an
    operation that either succeeds or raises. */
module Wrappers {

  datatype Option<+T> = None | Some(value: T)

  datatype Result<+T, +E> = Success(value: T) | Failure(error: E)
}
