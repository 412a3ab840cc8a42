/** Failure-carrying results shared by every module of the model. */
module Wrappers {

  datatype Option<+T> = None | Some(value: T) {

    predicate IsFailure() {
      None?
    }

    function PropagateFailure<U>(): Option<U>
      requires None?
    {
      None
    }

    function Extract(): T
      requires Some?
    {
      value
    }
  }

  /** The exceptions that end a run of the scraper before anything is written.
      `SupplementalFailed` stands for a rejected promise of the secondary news source. */
  datatype Fault = TypeError | RangeError | SyntaxError | SupplementalFailed

  datatype Result<+T> = Ok(value: T) | Err(fault: Fault) {

    predicate IsFailure() {
      Err?
    }

    function PropagateFailure<U>(): Result<U>
      requires Err?
    {
      Err(fault)
    }

    function Extract(): T
      requires Ok?
    {
      value
    }
  }

  /** An optional value as a result: `None` becomes the given fault. */
  function Need<T>(o: Option<T>, fault: Fault): (r: Result<T>)
    ensures r.Ok? <==> o.Some?
    ensures r.Ok? ==> r.value == o.value
    ensures r.Err? ==> r.fault == fault
  {
    match o
    case Some(v) => Ok(v)
    case None => Err(fault)
  }
}
