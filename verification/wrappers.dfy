/** Failure-carrying datatypes shared by every module of the model.
    A Python function that returns `None` becomes an `Option`; one that raises
    becomes a `Result` whose `Err` carries the reason. */
module Wrappers {

  datatype Option<+T> = None | Some(value: T) {

    /** The value, or `default` when absent (Python's `x if x is not None else default`). */
    function GetOr(default: T): T {
      match this
      case Some(v) => v
      case None => default
    }

    /** The value as a success, or `error` when absent. */
    function ToResult<E>(error: E): (r: Result<T, E>)
      ensures r.Ok? <==> Some?
      ensures Some? ==> r.value == value
    {
      match this
      case Some(v) => Ok(v)
      case None => Err(error)
    }

    predicate IsFailure() {
      None?
    }

    function PropagateFailure<U>(): Option<U>
      requires None?
    {
      None
    }

    function Extract(): T
      requires Some?
    {
      value
    }
  }

  datatype Result<+T, +E> = Ok(value: T) | Err(error: E) {

    predicate IsFailure() {
      Err?
    }

    function PropagateFailure<U>(): Result<U, E>
      requires Err?
    {
      Err(error)
    }

    function Extract(): T
      requires Ok?
    {
      value
    }

    /** The value, forgetting why it is missing. */
    function ToOption(): (r: Option<T>)
      ensures r.Some? <==> Ok?
      ensures Ok? ==> r.value == value
    {
      match this
      case Ok(v) => Some(v)
      case Err(_) => None
    }
  }

  /** `Ok(())` when `condition` holds, otherwise the given error; used with `:-`. */
  function Need<E>(condition: bool, error: E): (r: Result<(), E>)
    ensures r.Ok? <==> condition
  {
    if condition then Ok(()) else Err(error)
  }
}
