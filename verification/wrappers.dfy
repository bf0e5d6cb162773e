/** The optional value used wherever the source either produces a value or
    signals failure (a regex that does not match, a parse that throws, a
    schema check that fails). */
module Wrappers {

  datatype Option<+T> = None | Some(value: T) {

    /** The carried value, or `default` when there is none. */
    function GetOr(default: T): T
    {
      match this
      case Some(v) => v
      case None => default
    }
  }
}
