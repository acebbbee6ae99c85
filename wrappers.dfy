/** Failure-carrying results used for the parser's thrown `std::runtime_error`s. */
module Wrappers {

  /** A computed value, or the message of the exception the source throws. */
  datatype Result<+T> = Ok(value: T) | Err(error: string)

  /** The outcome of a `void` operation that may throw. */
  datatype Outcome = Pass | Fail(error: string)

  datatype Option<+T> = None | Some(value: T)
}
