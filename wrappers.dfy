/** The Option datatype used for the optional attributes of the source's records. */
module Wrappers {

  /** Some value, or the absence of one (Python's `None`). */
  datatype Option<+T> = None | Some(value: T) {

    /** The value, or `default` when absent (Python's `dict.get(key, default)`). */
    function GetOr(default: T): T {
      match this
      case Some(v) => v
      case None => default
    }
  }
}
