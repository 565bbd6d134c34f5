/** The error values the editor core reports, the results that carry them, and options. Every module that models a call
    that can fail uses these, with the error the source gives. */
module Errors {

  datatype CodeError =
    | InvalidPosition
    | InvalidRange
    | OverlappingChanges
    | StaleRevision(expected: nat, actual: nat)
    | SizeLimit
    | InvalidConfiguration
    | RevisionExhausted

  datatype Result<+T> = Ok(value: T) | Err(error: CodeError) {
    predicate IsFailure() {
      Err?
    }

    function PropagateFailure<U>(): Result<U>
      requires Err?
    {
      Err(error)
    }

    function Extract(): T
      requires Ok?
    {
      value
    }
  }

  datatype Option<+T> = None | Some(value: T)
}
