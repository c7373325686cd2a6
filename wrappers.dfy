/** The optional value used throughout the model for Python's None, JavaScript's null/NaN
    and "no such row / no such file". */
module Wrappers {

  datatype Option<+T> = None | Some(value: T) {

    /** The value, or `default` when there is none. */
    function GetOr(default: T): T {
      match this
      case Some(v) => v
      case None => default
    }
  }
}
