/** Failure-compatible Option and Result, and the run-aborting errors of the pipeline. */
module Wrappers {

  datatype Option<+T> = None | Some(value: T)

  /** The ways a run of one of the scripts aborts before it writes anything. */
  datatype Error =
    | MissingColumn(name: string)    // df[name] or df.drop([name]) on an absent label: KeyError
    | AmbiguousColumn(name: string)  // df[name] selects several columns, so `.str` is not available
    | DuplicateHashId                // the `hashid` uniqueness assertion failed

  datatype Result<+R> = Success(value: R) | Failure(error: Error) {
    predicate IsFailure() {
      Failure?
    }

    function PropagateFailure<U>(): Result<U>
      requires Failure?
    {
      Failure(error)
    }

    function Extract(): R
      requires Success?
    {
      value
    }
  }
}
