/** Optional values, and results standing in for Go's `(value, error)` returns and for
    `die`/`maybeDie`, which end the process with a message. */
module Wrappers {

  datatype Option<+T> = None | Some(value: T)

  datatype Result<+R, +E> = Success(value: R) | Failure(error: E)
}
