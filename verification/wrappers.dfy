/** Optional values for Go's nil slices and maps. */
module Wrappers {

  /** A value that may be absent. Used for Go's nil slices and maps, where
      "nil" and "present but empty" are different states. */
  datatype Option<+T> = None | Some(value: T) {

    /** The wrapped value, or `default` when absent (Go reads a nil slice or
        map as an empty one). */
    function GetOr(default: T): (r: T)
      ensures Some? ==> r == value
      ensures None? ==> r == default
    {
      match this
      case Some(v) => v
      case None => default
    }
  }
}
