/** Optional values, used wherever the source yields `null` or `undefined`. */
module Wrappers {

  datatype Option<+T> = None | Some(value: T) {

    /** The value, or `default` when there is none (JavaScript's `x || default` on a present value). */
    function GetOr(default: T): T
    {
      match this
      case Some(v) => v
      case None => default
    }
  }

  /** The outcome of a call that may throw: the value it returned, or the message it threw. */
  datatype Outcome<+T> = Returned(value: T) | Threw(message: string)
}
