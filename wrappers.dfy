/** Optional values and success-or-failure outcomes, used where the source has
    `undefined`/`null` or a rejected promise. */
module Wrappers {

  datatype Option<+T> = None | Some(value: T)

  datatype Result<+T, +E> = Success(value: T) | Failure(error: E)
}
