/** Optional values and results of operations that can fail with a message. */
module Wrappers {

  datatype Option<+T> = None | Some(value: T)

  /** `Failure` carries the message of the exception the program would raise. */
  datatype Result<+T> = Success(value: T) | Failure(error: string)
}
