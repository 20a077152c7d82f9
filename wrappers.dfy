/** Failure-compatible result type used for the exceptions the Python code can raise. */
module Wrappers {

  /** The Python exceptions that can escape from the modelled code. */
  datatype Error = KeyError | IndexError | ValueError | ZeroDivisionError

  /** What a backtracking search ends with: the (mutated) assignment, None, or an exception
      that escapes. */
  datatype Outcome = Solved | Unsat | Raised(error: Error)

  datatype Option<+T> = None | Some(value: T)

  datatype Result<+T> = Ok(value: T) | Err(error: Error) {
    predicate IsFailure() { Err? }

    function PropagateFailure<U>(): Result<U>
      requires Err?
    {
      Err(error)
    }

    function Extract(): T
      requires Ok?
    {
      value
    }
  }
}
