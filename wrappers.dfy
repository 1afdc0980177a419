/** Failure-carrying results shared by the modules of this model. */
module Wrappers {

  datatype Option<+T> = None | Some(value: T)

  /** The outcome of an operation that can raise an exception in the source. */
  datatype Result<+T> = Success(value: T) | Failure(error: string)
}
