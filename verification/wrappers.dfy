/** Optional values and results, shared by the rest of the model. */
module Wrappers {

  /** A value that may be missing, as a form field or a session key may be. */
  datatype Option<+T> = None | Some(value: T)

  /** Either a computed value or the reason it could not be computed. */
  datatype Result<+R, +E> = Success(value: R) | Failure(error: E)
}
