/** Failure-carrying values shared by the other modules: `Option` stands for a
    JavaScript value that may be `undefined`, `Result` for a computation that
    either produces a value or throws an error with a message. */
module Wrappers {

  datatype Option<+T> = None | Some(value: T) {
    function GetOr(default: T): T {
      match this
      case Some(v) => v
      case None => default
    }
  }

  datatype Result<+R, +E> = Success(value: R) | Failure(error: E)
}
