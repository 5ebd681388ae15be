/** Failure-carrying results shared by the parser, the tape and the execution loop. */
module Wrappers {

  /** A value, or nothing. */
  datatype Option<+T> = None | Some(value: T)

  /** Either a value or the error that stopped the computation. */
  datatype Result<+T, +E> = Ok(value: T) | Err(error: E)
}
