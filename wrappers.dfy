/** Option and Result, used for the values the server returns as `None`
    and for the exception the as-written pruner raises. */
module Wrappers {

  datatype Option<+T> = None | Some(value: T)

  datatype Result<+R, +E> = Success(value: R) | Failure(error: E)
}
