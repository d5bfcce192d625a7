/** The optional-value datatype used wherever the TypeScript source has a
    field that may be `undefined` or `null`, or a parse that may fail. */
module Wrappers {

  datatype Option<+T> = None | Some(value: T) {

    /** Returns the value held in Some, or `default` for None. */
    function GetOr(default: T): T {
      match this
      case Some(v) => v
      case None => default
    }
  }
}
