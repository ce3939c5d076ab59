/** Failure-carrying result types shared by every module of the model.
    The source reports errors by raising an R error (which unwinds the call);
    here such an error is the `Failure` alternative carrying the message text. */
module Wrappers {

  datatype Option<+T> = None | Some(value: T)

  datatype Result<+T> = Success(value: T) | Failure(error: string) {
    predicate IsFailure() {
      Failure?
    }

    function PropagateFailure<U>(): Result<U>
      requires Failure?
    {
      Failure(error)
    }

    function Extract(): T
      requires Success?
    {
      value
    }
  }

  /** A check that either passes or fails with a message; usable with `:-`. */
  datatype Check = Pass | Fail(error: string) {
    predicate IsFailure() {
      Fail?
    }

    function PropagateFailure<U>(): Result<U>
      requires Fail?
    {
      Failure(error)
    }
  }

  function Need(condition: bool, error: string): Check
  {
    if condition then Pass else Fail(error)
  }
}
