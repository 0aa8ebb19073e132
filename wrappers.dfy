/**
 * The optional value used where the source returns `null` or `undefined`, or
 * where a call that returns no such value can throw; and the completion of a call
 * that can both return `null` and throw.
 */
module Wrappers {

  datatype Option<+T> = None | Some(value: T) {

    /** Returns the carried value, or `default` for None. */
    function GetOr(default: T): T {
      match this
      case Some(v) => v
      case None => default
    }
  }

  /** How a call ends: by throwing, or by returning a value. */
  datatype Completion<+T> = Thrown | Normal(value: T)
}
