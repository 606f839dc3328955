/** Optional values, used for "a subject tag may or may not be detected"
    and "the selector may or may not have been consulted". */
module Wrappers {

  datatype Option<+T> = None | Some(value: T) {

    /** Applies `f` to the value if there is one. */
    function Map<U>(f: T -> U): (r: Option<U>)
      ensures r.Some? <==> Some?
      ensures Some? ==> r.value == f(value)
    {
      match this
      case None => None
      case Some(v) => Some(f(v))
    }
  }
}
