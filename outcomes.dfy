/** Success and failure values for the rebasing engine.  Every way the Python
    code stops with an exception or a process exit is a `Failure`, named after
    what Python raises. */
module Outcomes {

  datatype Option<+T> = None | Some(value: T) {
    predicate IsFailure() { None? }

    function PropagateFailure<U>(): Option<U>
      requires None?
    {
      None
    }

    function Extract(): T
      requires Some?
    {
      value
    }
  }

  /** The exceptions and exits the two revisions of the date utilities can end with. */
  datatype Failure =
    | GenerateTimeDeltaException   // no step given and no second sample to derive one from
    | InvalidDateListException     // no first sample to take a time of day from
    | ValueError                   // a start-time string strptime refuses
    | OverflowError                // timedelta or datetime arithmetic outside Python's ranges
    | IndexError                   // the older revision indexes an empty list unguarded
    | SystemExit(status: int)      // the older revision calls sys.exit

  datatype Result<+T> = Ok(value: T) | Err(failure: Failure) {
    predicate IsFailure() { Err? }

    function PropagateFailure<U>(): Result<U>
      requires Err?
    {
      Err(failure)
    }

    function Extract(): T
      requires Ok?
    {
      value
    }
  }
}
