/** Option and Result, used for values that may be absent and for operations that may fail. */
module Wrappers {

  datatype Option<+T> = None | Some(value: T)

  /** A computation that either yields a value or fails with a message (a raised exception). */
  datatype Result<+T> = Success(value: T) | Failure(message: string)
}
