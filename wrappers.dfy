/** Optional values and results shared by the model's modules. */
module Wrappers {

  /** A value that may be missing: an absent JSON field, a failed lookup, a failed decode. */
  datatype Option<+T> = None | Some(value: T) {

    predicate IsFailure() {
      None?
    }

    function PropagateFailure<U>(): Option<U>
      requires None?
    {
      None
    }

    function Extract(): T
      requires Some?
    {
      value
    }
  }

  /** Either a value or the error that ended the computation. */
  datatype Result<+T, +E> = Success(value: T) | Failure(error: E)
}
