/** Optional values and results with an error, for the core's missing keys and exceptions. */
module Outcomes {

  datatype Option<+T> = None | Some(value: T)

  datatype Result<+T, +E> = Success(value: T) | Failure(error: E)
}
