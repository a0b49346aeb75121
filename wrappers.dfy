/** Optional values and results with an error, used for JavaScript's
    `undefined` fields and for validation failures. */
module Wrappers {

  datatype Option<+T> = None | Some(value: T)

  datatype Result<+T, +E> = Success(value: T) | Failure(error: E)
}
