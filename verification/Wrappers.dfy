/** Option and Result, the two shapes the storage engine's signatures use. */
module Wrappers {

  datatype Option<+T> = None | Some(value: T)

  datatype Result<+T, +E> = Ok(value: T) | Err(error: E)

  /** The unit value of an operation that returns nothing on success. */
  datatype Unit = Unit
}
