/** The optional-value datatype used wherever the source has an optional field,
    a `null`/`undefined` result or an action that may not be dispatched. */
module Wrappers {

  datatype Option<+T> = None | Some(value: T) {

    /** The value, or `default` when absent (the source's `??` and `||` fallbacks). */
    function GetOr(default: T): T {
      match this
      case Some(v) => v
      case None => default
    }
  }
}
