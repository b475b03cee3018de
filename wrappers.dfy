/** An optional value: a prop or input the caller may leave undefined (or null). */
module Wrappers {

  datatype Option<+T> = None | Some(value: T) {

    /** The value, or `default` when it is absent: a destructuring default such as `{ total = 60 }`. */
    function GetOr(default: T): (r: T)
      ensures Some? ==> r == value
      ensures None? ==> r == default
    {
      match this
      case Some(v) => v
      case None => default
    }
  }
}
