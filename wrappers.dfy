/** Optional request-body values and handler outcomes. */
module Wrappers {

  /** A JSON body field: absent (or null) as None, present as Some. */
  datatype Option<+T> = None | Some(value: T)

  /** The outcome of a handler that can fail inside its try block. */
  datatype Result<+T, +E> = Success(value: T) | Failure(error: E)
}
