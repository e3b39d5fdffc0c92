/** Outcomes shared by every part of the analyser.

    In the analyser every error is fatal: `die` exits the process and an
    uncaught Python exception ends it too.  Here each such point returns
    `Err(f)` with a `Fault` naming what went wrong, and callers stop at the
    first one, as the program does. */
module Errors {

  /** Everything that ends a run of the analyser early. */
  datatype Fault =
    | BogusLength                      // a data row has a different field count than the header
    | MissingColumn(name: string)      // KeyError: the header lacks a column the routing reads
    | MalformedDate(date: string)      // the date column does not parse as a date and time
    | MultipleOffers                   // a second offer for one call
    | MultipleAnswers                  // a second answer for one call
    | NotACandidate(line: string)      // the first token is not a candidate label
    | MalformedCandidate(line: string) // too few tokens, or a non-integer numeric field
    | MalformedAddress(addr: string)   // a dotted part of an address is not an integer
    | NoWarningMethod                  // the call to the missing `warning` method

  datatype Option<+T> = None | Some(value: T)

  /** A value, or the fault that aborted the run. */
  datatype Result<+T> = Ok(value: T) | Err(fault: Fault) {
    predicate IsFailure() { Err? }

    function PropagateFailure<U>(): Result<U>
      requires Err?
    {
      Err(fault)
    }

    function Extract(): T
      requires Ok?
    {
      value
    }
  }

  /** A run that either goes on or stops with a fault. */
  datatype Outcome = Pass | Fail(fault: Fault) {
    predicate IsFailure() { Fail? }

    function PropagateFailure(): Outcome
      requires Fail?
    {
      this
    }
  }
}
