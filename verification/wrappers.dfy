/** Optional values, used wherever the service has
    "a value or nothing" (an unparsed address, an absent dataset reader,
    an omitted query parameter or header). */
module Wrappers {

  datatype Option<+T> = None | Some(value: T) {

    /** The wrapped value, or `default` when there is none. */
    function GetOr(default: T): (r: T)
    {
      match this
      case Some(v) => v
      case None => default
    }
  }
}
