/** The optional-value idiom the library uses to signal absence. */
module Wrappers {

  datatype Option<+T> = None | Some(value: T) {

    /** Rust's `Option::and_then`: feeds a present value to `f`, keeps `None` otherwise. */
    function AndThen<U>(f: T -> Option<U>): (r: Option<U>)
      ensures None? ==> r.None?
      ensures Some? ==> r == f(value)
    {
      match this
      case None => None
      case Some(v) => f(v)
    }
  }
}
