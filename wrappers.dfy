/** Failure-carrying values shared by the other modules. */
module Wrappers {

  /** A value that may be absent; stands for a Go pointer that may be nil. */
  datatype Option<+T> = None | Some(value: T) {
    function GetOr(default: T): T {
      match this
      case Some(v) => v
      case None => default
    }
  }

  /** The outcome of a remote call: its response, or the error it returned. */
  datatype Result<+R, +E> = Success(value: R) | Failure(error: E)
}
