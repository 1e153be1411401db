/** Option and Result, the failure-carrying values used throughout the model. */
module Wrappers {

  datatype Option<+T> = None | Some(value: T)

  /** The outcome of a call that may raise: its value, or the text of the exception (`str(e)`). */
  datatype Result<+R> = Success(value: R) | Failure(error: string)
}
