/** Optional values: TypeScript's `field?: T` and `T | undefined`, and the
    outcome of an I/O step that may have failed. */
module Wrappers {

  datatype Option<+T> = None | Some(value: T) {

    /** The value, or `default` when absent. */
    function GetOr(default: T): T {
      match this
      case Some(v) => v
      case None => default
    }
  }
}
