/** Failure-carrying values: `Option` for JavaScript's `undefined`, `Result` for a thrown error. */
module Wrappers {

  datatype Option<+T> = None | Some(value: T)

  datatype Result<+R, +E> = Success(value: R) | Failure(error: E)
}
