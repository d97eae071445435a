/** The optional-value datatype used wherever the JavaScript code returns
    `undefined`, `null`, `-1` or `NaN` for "no value". */
module Wrappers {

  datatype Option<+T> = None | Some(value: T) {

    /** Returns the wrapped value, or `default` when there is none. */
    function GetOr(default: T): T {
      match this
      case Some(v) => v
      case None => default
    }
  }
}
