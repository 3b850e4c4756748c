/** Failure-compatible wrappers shared by the other modules. */
module Wrappers {

  /** A value that may be absent (a JavaScript `undefined`/`null`, a SQL NULL). */
  datatype Option<+T> = None | Some(value: T)

  /** The outcome of an HTTP handler: a response body or an error status. */
  datatype Result<+R, +E> = Success(value: R) | Failure(error: E)
}
