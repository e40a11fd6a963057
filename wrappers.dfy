/** Optional values and failure-carrying results.
    Every exception the converter can raise (a missing register, a failed
    number parse, an out-of-range substring, the explicit "command not
    found" error) collapses into the single `Failure` outcome. */
module Wrappers {

  datatype Option<+T> = None | Some(value: T) {
    predicate IsFailure() { None? }

    function PropagateFailure<U>(): Option<U>
      requires None?
    {
      None
    }

    function Extract(): T
      requires Some?
    {
      value
    }
  }

  datatype Result<+T> = Success(value: T) | Failure {
    predicate IsFailure() { Failure? }

    function PropagateFailure<U>(): Result<U>
      requires Failure?
    {
      Failure
    }

    function Extract(): T
      requires Success?
    {
      value
    }
  }

  /** `x ?: throw`: an absent value becomes a failure. */
  function OrFail<T>(o: Option<T>): (r: Result<T>)
    ensures r.Success? <==> o.Some?
    ensures r.Success? ==> r.value == o.value
  {
    match o
    case Some(v) => Success(v)
    case None => Failure
  }

  /** A guard that throws when its condition does not hold. */
  function Need(condition: bool): (r: Result<()>)
    ensures r.Success? <==> condition
  {
    if condition then Success(()) else Failure
  }
}
