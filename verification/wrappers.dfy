/** Failure-compatible Option type. `None` stands for a C# exception
    (an out-of-range array index or an invalid `Array.Copy` range): the
    host never catches one, so the model only records that it happened. */
module Wrappers {

  datatype Option<+T> = None | Some(value: T) {

    /** An access that threw: `:-` stops here. */
    predicate IsFailure() {
      None?
    }

    /** The thrown access, passed on as the caller's own failure. */
    function PropagateFailure<U>(): Option<U>
      requires None?
    {
      None
    }

    /** The value an access produced when it did not throw. */
    function Extract(): T
      requires Some?
    {
      value
    }
  }
}
