/** Optional values, used wherever the source has `undefined`, a missing key or a
    caught exception that yields "nothing". */
module Wrappers {

  datatype Option<+T> = None | Some(value: T) {

    /** Returns the value in Some, or `default` for None. */
    function GetOr(default: T): T {
      match this
      case Some(v) => v
      case None => default
    }
  }
}
