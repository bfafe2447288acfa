/** Failure-compatible results used by every module of the model. */
module Wrappers {

  datatype Option<+T> = None | Some(value: T) {
    predicate IsFailure() { None? }

    function PropagateFailure<U>(): Option<U>
      requires None?
    {
      None
    }

    function GetOr(fallback: T): T {
      if Some? then value else fallback
    }

    function Extract(): T
      requires Some?
    {
      value
    }
  }
}
