/** Optional values, for Python's `None` and C's `NULL`. */
module Wrappers {

  datatype Option<+T> = None | Some(value: T) {
    /** The held value, or `default` when there is none (`dict.get(key, default)`). */
    function GetOr(default: T): T {
      match this
      case Some(v) => v
      case None => default
    }
  }
}
