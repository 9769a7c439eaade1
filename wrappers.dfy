/** Option and Result types used for the source's null values and exceptions. */
module Wrappers {

  /** `None` stands for a Java null reference. */
  datatype Option<+T> = None | Some(value: T)

  /** `Err` stands for an exception that escapes the modelled Java method. */
  datatype Result<+T, +E> = Ok(value: T) | Err(error: E)
}
