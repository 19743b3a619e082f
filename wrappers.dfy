/** Failure-carrying wrappers shared by the other modules. */
module Wrappers {

  /** An optional value: a JavaScript `null` (or a callback that returns early) is `None`. */
  datatype Option<+T> = None | Some(value: T)

  /** The outcome of an operation that may throw: `Failure` carries what would be thrown. */
  datatype Result<+R, +E> = Success(value: R) | Failure(error: E)
}
