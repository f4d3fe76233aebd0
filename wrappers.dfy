/** Result wrappers shared by the model.
    - Option<T> stands for a C# reference that may be null.
    - Eval<T> is the outcome of evaluating a getter: either it returns a value,
      or an exception (an OverflowException) escapes it. */
module Wrappers {

  datatype Option<+T> = None | Some(value: T) {
    function GetOr(default: T): T {
      match this
      case Some(v) => v
      case None => default
    }
  }

  /** A getter either returns normally (`Ok`) or an exception escapes it (`Throws`).
      Failure-compatible, so `var x :- e;` propagates the exception as C# does. */
  datatype Eval<+T> = Ok(value: T) | Throws {
    predicate IsFailure() {
      Throws?
    }

    function PropagateFailure<U>(): Eval<U>
      requires Throws?
    {
      Throws
    }

    function Extract(): T
      requires Ok?
    {
      value
    }
  }
}
