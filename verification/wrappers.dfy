/** Optional values: the result of a call to an external service, which is
    either a value or a failure (a thrown error, a timeout, a missing
    field). */
module Wrappers {

  datatype Option<+T> = None | Some(value: T) {

    /** The value, or `default` when there is none. */
    function GetOr(default: T): T {
      match this
      case Some(v) => v
      case None => default
    }
  }
}
