/** Option and Result, for lookups that may miss and for Go calls that return an `error`. */
module Wrappers {
  datatype Option<+T> = None | Some(value: T)

  datatype Result<+R, +E> = Success(value: R) | Failure(error: E)
}
