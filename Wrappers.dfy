/** Optional values and results with an error, as used by the token pipeline. */
module Wrappers {

  /** Swift's optional: an absent value (`nil`) or a present one. */
  datatype Option<+T> = None | Some(value: T)

  /** A value or the reason there is none. */
  datatype Result<+T, +E> = Success(value: T) | Failure(error: E)
}
