/** The one failure-compatible datatype the project shares. */
module Wrappers {
  /** A C pointer or return code that may carry no value. */
  datatype Option<+T> = None | Some(value: T) {
    predicate IsFailure() {
      None?
    }

    function PropagateFailure<U>(): Option<U> {
      None
    }

    function Extract(): T
      requires Some?
    {
      value
    }
  }
}
