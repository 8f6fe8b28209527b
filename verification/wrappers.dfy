/** Optional values and outcomes. An `Option` is a value that may be absent
    (an SQL NULL, a key with no row). A `Result` is either a value or the
    error the PHP code raises instead; `:-` propagates that error. */
module Outcomes {

  datatype Option<+T> = None | Some(value: T)

  datatype Result<+R, +E> = Success(value: R) | Failure(error: E) {

    predicate IsFailure() {
      Failure?
    }

    function PropagateFailure<U>(): Result<U, E>
      requires Failure?
    {
      Failure(this.error)
    }

    function Extract(): R
      requires Success?
    {
      value
    }
  }
}
