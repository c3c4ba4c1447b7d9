/** Failure-carrying datatypes shared by every module of the model.
    A compile error, a lexer error or a NULL return of the C code becomes
    a `Failure`/`None` value here instead of a call to `exit`. */
module Wrappers {

  datatype Option<+T> = None | Some(value: T)

  datatype Result<+R, +E> = Success(value: R) | Failure(error: E) {
    predicate IsFailure() {
      Failure?
    }

    function PropagateFailure<U>(): Result<U, E>
      requires Failure?
    {
      Failure(error)
    }

    function Extract(): R
      requires Success?
    {
      value
    }
  }
}
