/** Failure outcomes of the separated-representation code.

    The source signals a broken precondition with MADNESS_ASSERT (fatal), a
    numerical breakdown with std::runtime_error, and a bad shape or slice of a
    dense tensor with a TensorException.  The model returns these as values. */
module Wrappers {

  /** Why an operation did not finish. */
  datatype Failure =
    | AssertionFailed(what: string)   // MADNESS_ASSERT fired: the program stops
    | RuntimeError(what: string)      // std::runtime_error was thrown
    | TensorError(what: string)       // the dense-tensor library refused a shape or slice

  datatype Option<+T> = None | Some(value: T)

  datatype Result<+T> = Ok(value: T) | Err(failure: Failure)
  {
    predicate IsFailure() { Err? }

    function PropagateFailure<U>(): Result<U>
      requires Err?
    {
      Err(failure)
    }

    function Extract(): T
      requires Ok?
    {
      value
    }
  }

  /** The outcome of an operation that returns nothing. */
  datatype Outcome = Done | Failed(failure: Failure)
}
