/** Optional values and success/error results, standing in for Python's
    `None` and for a raised `ValueError`. */
module Wrappers {

  datatype Option<+T> = None | Some(value: T)

  datatype Result<+R, +E> = Success(value: R) | Failure(error: E)
}
