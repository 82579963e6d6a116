/** Failure-carrying results for the operations of the model. */
module Wrappers {

  datatype Option<+T> = None | Some(value: T)

  /**
   * Either a value or the exception `GarchModel` raises: its message for
   * `load`, its class name for dates out of range.
   */
  datatype Result<+T> = Success(value: T) | Failure(error: string)
}
