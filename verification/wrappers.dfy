/** Optional values and results used throughout the model: `Option` for the
    values the tool may not be able to obtain (a file's size, an extension, a
    readable entry) and `Result` for the one operation-level failure, an
    invalid search pattern. */
module Wrappers {

  datatype Option<+T> = None | Some(value: T) {

    /** The wrapped value, or `default` when there is none. */
    function GetOr(default: T): T {
      match this
      case Some(v) => v
      case None => default
    }
  }

  datatype Result<+R, +E> = Success(value: R) | Failure(error: E)
}
