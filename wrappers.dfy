/** Option and Result, the two failure-carrying datatypes the model shares. */
module Wrappers {

  /** An optional value; `None` is the failure case of `:-`. */
  datatype Option<+T> = None | Some(value: T) {

    predicate IsFailure()
    {
      None?
    }

    function PropagateFailure<U>(): Option<U>
      requires None?
    {
      None
    }

    function Extract(): T
      requires Some?
    {
      value
    }
  }

  /** Success or failure; a failure carries the reason. */
  datatype Result<+T, +E> = Success(value: T) | Failure(error: E)
}
