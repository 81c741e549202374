/** The failure-carrying types shared by the modules of this model. */
module Wrappers {

  /** A value that may be absent. */
  datatype Option<+T> = None | Some(value: T)

  /** Either the value a call returns or the exception it raises. */
  datatype Result<+T, +E> = Success(value: T) | Failure(error: E)
}
