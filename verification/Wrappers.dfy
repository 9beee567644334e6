/** The optional-value wrapper used across the model. */
module Wrappers {

  /** A value that may be missing: `undefined` in the handlers, an absent map key. */
  datatype Option<+T> = None | Some(value: T) {

    /** The wrapped value, or `default` when it is missing. */
    function GetOr(default: T): T
    {
      match this
      case Some(v) => v
      case None => default
    }
  }
}
