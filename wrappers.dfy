/** Option and Result values used throughout the model for JavaScript's
    `undefined` fields and for the error paths of the request handlers. */
module Wrappers {

  datatype Option<+T> = None | Some(value: T)

  datatype Result<+R, +E> = Success(value: R) | Failure(error: E)
}
