/** Optional values. A C# string reference that may be null is modelled as an
    Option<string>: None is the null reference, Some(s) a string object. */
module Wrappers {

  datatype Option<T> = None | Some(value: T) {

    /** The wrapped value, or the given default for None. */
    function GetOr(default: T): (r: T)
      ensures Some? ==> r == value
      ensures None? ==> r == default
    {
      match this
      case Some(v) => v
      case None => default
    }
  }
}
