/** Option and Result, the shapes the model uses for JavaScript's `null`/`undefined`
    and for thrown errors. */
module Wrappers {

  /** A value that may be absent: `null` or `undefined` in the source. */
  datatype Option<+T> = None | Some(value: T) {

    /** The value, or `default` when absent: the source's `??` operator. */
    function GetOr(default: T): T {
      match this
      case Some(v) => v
      case None => default
    }
  }

  /** The outcome of a step that may throw. */
  datatype Result<+R, +E> = Ok(value: R) | Err(error: E)
}
