/** Small failure-carrying datatypes shared by the models. */
module Wrappers {

  /** A value that may be absent: JavaScript's `null`/`undefined` in the models. */
  datatype Option<+T> = None | Some(value: T) {

    /** The wrapped value, or `default` when absent. */
    function GetOr(default: T): T {
      match this
      case Some(v) => v
      case None => default
    }
  }

  /** The outcome of an operation that returns nothing but may throw `error`. */
  datatype Outcome<+E> = Pass | Fail(error: E)
}
