/** Optional values and results with an error, as the model uses them for
    JavaScript's `undefined` and for exceptions. */
module Wrappers {

  datatype Option<+T> = None | Some(value: T)

  datatype Result<+R, +E> = Success(value: R) | Failure(error: E)
}
