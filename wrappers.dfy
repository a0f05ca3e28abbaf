/** Failure-compatible wrappers shared by the model: an optional value and a
    success-or-error result (the source's `undefined` and its thrown errors). */
module Wrappers {

  datatype Option<+T> = None | Some(value: T)

  datatype Result<+T, +E> = Success(value: T) | Failure(error: E)
}
