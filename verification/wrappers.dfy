/** Failure-carrying results for the places where the viewer's Python code
    raises instead of returning. */
module Wrappers {

  /** The Python exceptions the modelled code can raise. */
  datatype PyError =
    | ZeroDivisionError   // a `/` whose divisor is zero
    | ValueError          // `list.index` of an absent element

  datatype Option<+T> = None | Some(value: T)

  datatype Result<+T> = Success(value: T) | Failure(error: PyError) {
    predicate IsFailure() { Failure? }

    function PropagateFailure<U>(): Result<U>
      requires Failure?
    {
      Failure(error)
    }

    function Extract(): T
      requires Success?
    {
      value
    }
  }
}
