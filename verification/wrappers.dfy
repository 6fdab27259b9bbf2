/** Optional values and success/failure results, used where the source returns
    `undefined`/`null` or throws an `Error`. */
module Wrappers {

  datatype Option<+T> = None | Some(value: T) {

    /** Returns the wrapped value, or `default` when there is none. */
    function GetOr(default: T): T {
      match this
      case Some(v) => v
      case None => default
    }
  }

  /** `Failure` carries the message of the `Error` the source would throw. */
  datatype Result<+R, +E> = Success(value: R) | Failure(error: E)
}
