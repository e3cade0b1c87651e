/** Optional values and results, used for the parser's "no list" outcome and the fatal setter's error. */
module Wrappers {

  datatype Option<+T> = None | Some(value: T) {

    /** The encapsulated value, or `default` when there is none. */
    function GetOr(default: T): T {
      match this
      case Some(v) => v
      case None => default
    }
  }

  /** A value or an error description. */
  datatype Result<+R, +E> = Success(value: R) | Failure(error: E)
}
