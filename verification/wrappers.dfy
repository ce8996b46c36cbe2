/** Optional values, used for "no value" results of the source's coercions:
    a text that does not parse as a number, a missing title, a date outside
    the four-digit ISO range. */
module Wrappers {

  datatype Option<+T> = None | Some(value: T) {

    /** Returns the wrapped value, or `default` when there is none. */
    function GetOr(default: T): T {
      match this
      case Some(v) => v
      case None => default
    }
  }
}
