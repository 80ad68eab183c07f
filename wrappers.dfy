/** Option and Result, the failure-carrying values the rest of the model returns
    where the Go code returns a value together with an `error`. */
module Wrappers {

  datatype Option<+T> = None | Some(value: T)

  datatype Result<+R, +E> = Success(value: R) | Failure(error: E)
}
