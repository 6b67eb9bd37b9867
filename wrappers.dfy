/** Optional values and results with an error, shared by every module of the model. */
module Wrappers {

  /** Ruby's `nil` / JavaScript's `null` and `undefined`, or a value. */
  datatype Option<+T> = None | Some(value: T)

  /** A value, or the exception an operation raises instead. */
  datatype Result<+T, +E> = Ok(value: T) | Err(error: E)
}
