/** A value that may be missing: the model of JavaScript's `null` for grades,
    averages and lookups that find nothing. */
module Wrappers {

  datatype Option<+T> = None | Some(value: T) {

    /** The value, or `default` when missing (JavaScript's `x || default`
        for values whose truthiness is decided by presence alone). */
    function GetOr(default: T): T {
      match this
      case Some(v) => v
      case None => default
    }
  }
}
