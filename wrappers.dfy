/** Optional values: `None` stands where the analyzer has a NaN or `None` placeholder. */
module Wrappers {
  datatype Option<+T> = None | Some(value: T)

  /** Outcome of an analysis that may fail with an error of type `E`. */
  datatype Result<+R, +E> = Success(value: R) | Failure(error: E)
}
