/** Plain optional and success-or-error datatypes shared by the quiz modules. */
module Wrappers {

  /** A value that may be absent; the quiz uses it for JavaScript's `null`. */
  datatype Option<+T> = None | Some(value: T)

  /** Either a value or the reason it could not be produced. */
  datatype Result<+T, +E> = Success(value: T) | Failure(error: E)
}
