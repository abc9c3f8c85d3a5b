/** The optional value used wherever the source has `null`/`undefined`. */
module Wrappers {

  datatype Option<T> = None | Some(value: T)
  {
    /** The value, or `d` when there is none (an update key left undefined keeps the field). */
    function UnwrapOr(d: T): (r: T)
      ensures Some? ==> r == value
      ensures None? ==> r == d
    {
      if Some? then value else d
    }
  }
}
