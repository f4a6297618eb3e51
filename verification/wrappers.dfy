/** Optional values: `None` stands for C's "not written" and for JavaScript's
    `null`/`undefined`. */
module Wrappers {

  datatype Option<+T> = None | Some(value: T) {

    /** JavaScript's nullish-coalescing `x ?? d`. */
    function GetOr(default: T): T
    {
      match this
      case Some(v) => v
      case None => default
    }
  }
}
