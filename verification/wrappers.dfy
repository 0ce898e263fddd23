/** Failure-compatible wrappers shared by the member store and the bot handler. */
module Wrappers {

  /** A value that may be absent: SQL NULL, a JavaScript `undefined`, or "no row". */
  datatype Option<+T> = None | Some(value: T)

  /** The outcome of an operation that either returns a value or throws a domain error. */
  datatype Result<+R, +E> = Success(value: R) | Failure(error: E)
}
