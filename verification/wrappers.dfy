/** Optional values, used for nullable pointers and for reads that can fail. */
module Wrappers {

  datatype Option<+T> = None | Some(value: T) {

    /** What a nullable pointer holds, with `default` standing in for null. */
    function GetOr(default: T): T {
      match this
      case Some(v) => v
      case None => default
    }
  }
}
