/** Optional values: a field that may be absent from a stored record, or a
    lookup that may fall outside a table. */
module Wrappers {

  datatype Option<+T> = None | Some(value: T) {

    /** The `??` default: the value if present, otherwise `default`. */
    function GetOr(default: T): (r: T)
      ensures Some? ==> r == value
      ensures None? ==> r == default
    {
      match this
      case Some(v) => v
      case None => default
    }
  }
}
