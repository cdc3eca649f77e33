/** Failure-carrying results shared by the modules of the model. */
module Wrappers {

  datatype Option<+T> = None | Some(value: T)

  /** Either a value or the error the original program raises (an exception or an exit). */
  datatype Result<+T, +E> = Ok(value: T) | Err(error: E)
}
