/** Outcomes of operations that can raise in the original program. */
module Wrappers {

  datatype Option<+T> = None | Some(value: T)

  /** The exceptions the reference arithmetic can raise. */
  datatype Error =
    | ZeroDivision      // `raise ZeroDivisionError`
    | AssertionFailed   // a run-time `assert` that does not hold
    | UnpackInfinity    // unpacking the pair of a point that is None
    | BadValue          // `raise ValueError`

  datatype Result<+T> = Ok(value: T) | Err(error: Error) {
    predicate IsFailure() {
      Err?
    }

    function PropagateFailure<U>(): Result<U>
      requires Err?
    {
      Err(error)
    }

    function Extract(): T
      requires Ok?
    {
      value
    }
  }
}
