/** Option type shared by every module: `None` stands for a missing JSON field,
    `undefined`, or a NaN result. */
module Wrappers {

  datatype Option<+T> = None | Some(value: T) {

    /** The value, or `default` when missing (JavaScript's `x || default` on a
        value that is never falsy when present). */
    function GetOr(default: T): T {
      match this
      case Some(v) => v
      case None => default
    }
  }
}
