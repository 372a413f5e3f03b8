/** Option and Result datatypes shared by the other modules. */
module Wrappers {

  /** A value that may be absent. */
  datatype Option<+T> = None | Some(value: T)

  /** Either a value or the error the operation reports instead of one. */
  datatype Result<+R, +E> = Success(value: R) | Failure(error: E)
}
