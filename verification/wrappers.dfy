/** The Option type used wherever the source returns or stores a pointer that may be null. */
module Wrappers {

  datatype Option<+T> = None | Some(value: T) {

    /** True if this is None (lets `:-` propagate a missing value). */
    predicate IsFailure() {
      None?
    }

    function PropagateFailure<U>(): Option<U>
      requires None?
    {
      None
    }

    function Extract(): T
      requires Some?
    {
      value
    }
  }

  /**
   * The outcome of a loader: its result; a rejection, where the source reports
   * the problem and returns false or null; or a crash, where what the source does
   * is undefined: it reads or writes outside an array, fails an allocation,
   * dereferences a null pointer, overflows a signed integer, or runs forever.
   */
  datatype Outcome<+T> = Done(value: T) | Rejected | Crashed {

    predicate IsFailure() {
      !Done?
    }

    function PropagateFailure<U>(): Outcome<U>
      requires !Done?
    {
      if Rejected? then Rejected else Crashed
    }

    function Extract(): T
      requires Done?
    {
      value
    }
  }
}
