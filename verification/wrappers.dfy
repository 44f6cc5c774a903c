/** Failure-compatible wrappers: `Option` stands for a C# reference that may be
    null, `Result` for an operation that may end in an exception. */
module Wrappers {

  datatype Option<+T> = None | Some(value: T)

  /** A C# exception thrown by the engine, by kind. */
  datatype Fault =
    | Malformed     // an index past the end of a `Split` result, or an `int.Parse` failure
    | OutOfBoard    // a `Token[5,5]` index outside the grid
    | DuplicateName // `Dictionary.Add` of a key already present
    | MissingKey    // `Dictionary` indexer read of a key not present

  datatype Result<+R> = Success(value: R) | Failure(fault: Fault) {
    predicate IsFailure() {
      Failure?
    }

    function PropagateFailure<U>(): Result<U>
      requires Failure?
    {
      Failure(fault)
    }

    function Extract(): R
      requires Success?
    {
      value
    }
  }
}
