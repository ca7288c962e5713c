module Wrappers {
  datatype Option<+T> = None | Some(value: T) {
    function GetOr(default: T): T {
      if Some? then value else default
    }
  }

  datatype Result<+T, +E> = Ok(value: T) | Err(error: E)

  // The result of an operation that can also be cut off.
  datatype Reply<+T, +E> = Success(value: T) | Failure(error: E) | Cut {
    predicate IsFailure() {
      !Success?
    }

    function PropagateFailure<U>(): Reply<U, E>
      requires IsFailure()
    {
      match this
      case Failure(e) => Failure(e)
      case Cut => Cut
    }

    function Extract(): T
      requires !IsFailure()
    {
      value
    }
  }
}
