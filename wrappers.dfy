/** The optional-value type used throughout the model. */
module Wrappers {

  /** A value that may be missing, as JavaScript's `undefined` for an absent array element. */
  datatype Option<+T> = None | Some(value: T) {

    function GetOr(default: T): T {
      match this
      case Some(v) => v
      case None => default
    }
  }
}
