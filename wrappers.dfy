/** Optional values and results with an error, used for the extractor's fail-fast behaviour. */
module Wrappers {
  datatype Option<T> = None | Some(value: T)

  datatype Result<T, E> = Success(value: T) | Failure(error: E)
}
