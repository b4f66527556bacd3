/** Option and Result: the "value or nothing" and "value or error" shapes used by
    the analytics results and the document record. */
module Wrappers {

  datatype Option<+T> = None | Some(value: T)

  /** A computation that either yields a value or fails the way the service's
      handler would (a Python exception escaping the function). */
  datatype Result<+R, +E> = Success(value: R) | Failure(error: E)
}
