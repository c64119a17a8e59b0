/** Optional values and error results shared by every module of the model. */
module Wrappers {

  /** A value that may be absent: Python's `None`. */
  datatype Option<+T> = None | Some(value: T) {
    function GetOr(default: T): T {
      match this
      case Some(v) => v
      case None => default
    }
  }

  /** The outcome of an operation that can raise: `Failure` carries the exception's message. */
  datatype Result<+R> = Success(value: R) | Failure(error: string)
}
