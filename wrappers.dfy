/** The optional-value type used throughout the model for JavaScript's
    `undefined` / `null` and for `Array.prototype.find` results. */
module Wrappers {

  datatype Option<+T> = None | Some(value: T) {

    /** The value when present, `default` otherwise. */
    function GetOr(default: T): T {
      match this
      case Some(v) => v
      case None => default
    }
  }
}
