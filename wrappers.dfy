/** Optional values and success-or-failure results, used for the error
    paths of the pipeline (a Python exception or a `None` return). */
module Wrappers {

  datatype Option<+T> = None | Some(value: T)

  datatype Result<+T, +E> = Success(value: T) | Failure(error: E)
}
