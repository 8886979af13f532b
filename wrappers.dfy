/** Failure-carrying results shared by every module of the model. */
module Wrappers {

  datatype Option<+T> = None | Some(value: T)

  /** The outcome of an operation that the source can abort with an exception or an error return. */
  datatype Result<+T, +E> = Ok(value: T) | Err(error: E)
}
