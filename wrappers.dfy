/** Option and Result, used for Go's nil pointers and for runs that end in a fatal error. */
module Wrappers {

  datatype Option<+T> = None | Some(value: T)

  datatype Result<+T, +E> = Success(value: T) | Failure(error: E)
}
