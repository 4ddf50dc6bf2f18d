/** The optional-value type used for dictionary lookups (Python's `dict.get`
    returning nothing) and for the top-level shape test of a parsed file. */
module Wrappers {

  datatype Option<+T> = None | Some(value: T) {

    /** The value, or `default` when there is none (`dict.get(key, default)`). */
    function GetOr(default: T): T
    {
      match this
      case Some(v) => v
      case None => default
    }
  }
}
