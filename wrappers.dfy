/** Option and Result values for the source's `null`/`undefined` and thrown errors. */
module Wrappers {

  datatype Option<+T> = None | Some(value: T) {
    function GetOr(default: T): T {
      match this
      case Some(v) => v
      case None => default
    }
  }

  /** A Convex handler either returns a value or throws an `Error` with a message. */
  datatype Result<+T> = Success(value: T) | Failure(error: string)
}
