/** The Some/None datatype used for Python's `None` returns and `dict.get` defaults. */
module Wrappers {

  datatype Option<+T> = None | Some(value: T) {

    /** The encapsulated value, or `default` when there is none (Python's `d.get(key, default)`). */
    function GetOr(default: T): (r: T)
      ensures Some? ==> r == value
      ensures None? ==> r == default
    {
      match this
      case Some(v) => v
      case None => default
    }
  }
}
