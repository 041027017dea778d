/**
  The two outcome types of the model, each with the three members Dafny's
  `:-` operator looks for (`IsFailure`, `PropagateFailure`, `Extract`), so
  that a step that cannot go on stops the whole computation.
 */
module Wrappers {

  /** The outcome of parsing one timestamp or one number field: `None` when the text is not one. */
  datatype Option<+T> = None | Some(value: T) {

    predicate IsFailure() {
      None?
    }

    function PropagateFailure<U>(): Option<U>
      requires None?
    {
      None
    }

    function Extract(): T
      requires Some?
    {
      value
    }
  }

  /**
    The outcome of the range filter and the bucketers: the collection they
    build, or the error naming the timestamp that stopped them.
   */
  datatype Result<+T, +E> = Success(value: T) | Failure(error: E) {

    predicate IsFailure() {
      Failure?
    }

    function PropagateFailure<U>(): Result<U, E>
      requires Failure?
    {
      Failure(error)
    }

    function Extract(): T
      requires Success?
    {
      value
    }
  }
}
