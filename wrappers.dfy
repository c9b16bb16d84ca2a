/** Option and Result: lookups that may find nothing, and operations that may fail fatally. */
module Wrappers {

  datatype Option<+T> = None | Some(value: T)

  datatype Result<+R, +E> = Success(value: R) | Failure(error: E)
}
