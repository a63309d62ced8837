/** Option and Result, used for the null value of a coerced cell and for the
    errors the two pipeline stages raise. */
module Wrappers {

  datatype Option<+T> = None | Some(value: T)

  datatype Result<+R, +E> = Success(value: R) | Failure(error: E)
}
