/** Option and Result, used where the C++ code throws or returns a sentinel. */
module Wrappers {

  datatype Option<+T> = None | Some(value: T)

  /** The exceptions the containers throw, one constructor per kind. */
  datatype Error =
    | IndexOutOfRange
    | EmptyContainer
    | Overflow
    | DimensionMismatch
    | DivisionByZero

  datatype Result<+T> = Ok(value: T) | Err(error: Error)
}
