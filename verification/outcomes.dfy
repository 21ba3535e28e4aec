/** The two failure-carrying shapes the accessors return: Option for a Java
    reference that may be null, Result for a call that may throw. Both work
    with Dafny's `:-` operator. */
module Outcomes {

  /** A possibly-null Java reference of a known type. */
  datatype Option<+T> = None | Some(value: T) {

    /** The value, or `default` when null (an auto-unboxing getter's zero). */
    function GetOr(default: T): T
    {
      match this
      case Some(v) => v
      case None => default
    }
  }

  /** A call that either returns a value or throws an exception. */
  datatype Result<+T, +E> = Success(value: T) | Failure(error: E) {

    predicate IsFailure()
    {
      Failure?
    }

    function PropagateFailure<U>(): Result<U, E>
      requires Failure?
    {
      Failure(error)
    }

    function Extract(): T
      requires Success?
    {
      value
    }
  }
}
