/** Optional values and outcomes, used wherever the source returns null/undefined or an error status. */
module Wrappers {

  datatype Option<+T> = None | Some(value: T)

  datatype Result<+T, +E> = Success(value: T) | Failure(error: E)
}
