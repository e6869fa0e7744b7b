/** Option and Result: JavaScript's `undefined` and its thrown errors, as values. */
module Wrappers {

  datatype Option<+T> = None | Some(value: T)

  datatype Result<+T, +E> = Success(value: T) | Failure(error: E)
}
