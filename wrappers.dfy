/** Optional values and results with an error, as used throughout the model. */
module Wrappers {

  /** A value that may be missing: a dictionary key that is absent. */
  datatype Option<+T> = None | Some(value: T)

  /** The outcome of a computation that may raise an exception. */
  datatype Result<+T, +E> = Ok(value: T) | Err(error: E)
}
