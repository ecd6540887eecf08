/**
 An optional value for the partial operations of the model: the parsers,
 and a call on a controller that may end in an exception. The three
 members let `:-` stop at the first None.
 */
module Wrappers {

  datatype Option<+T> = None | Some(value: T) {

    /** A missing value stops a `:-` chain. */
    predicate IsFailure() {
      None?
    }

    /** The missing value, passed on at whatever type the enclosing chain returns. */
    function PropagateFailure<U>(): Option<U>
      requires None?
    {
      None
    }

    /** The value a `:-` binds when there is one. */
    function Extract(): T
      requires Some?
    {
      value
    }
  }
}
