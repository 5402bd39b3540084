/** Option and Result types shared by the other modules. */
module Wrappers {

  /** An optional value. */
  datatype Option<+T> = None | Some(value: T)

  /** Either a value or an error value, standing in for a raised exception. */
  datatype Result<+R, +E> = Success(value: R) | Failure(error: E)
}
