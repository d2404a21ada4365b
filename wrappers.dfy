/** Option and Result, the failure-compatible wrappers the model uses for the
    source's `None` returns and raised exceptions. */
module Wrappers {

  datatype Option<+T> = None | Some(value: T)

  datatype Result<+T, +E> = Ok(value: T) | Err(error: E) {
    predicate IsFailure() { Err? }

    function PropagateFailure<U>(): Result<U, E>
      requires Err?
    {
      Err(error)
    }

    function Extract(): T
      requires Ok?
    {
      value
    }
  }
}

/** Every way the analysis can stop without a value. Each constructor stands for
    one exception (or one unbound name) the Python code runs into. */
module Errors {

  datatype Fault =
    | SameNodes            // isDirectWith asked about two identical nodes (ValueError)
    | CircularPath         // a reference node repeats before the other one appears (ValueError)
    | NodeMissing          // the path lacks one or both reference nodes (ValueError)
    | EmptyPath            // path[0] or path[-1] on an empty path (IndexError)
    | NoPreviousNode       // findPreviousNode found no predecessor
    | NoNextNode           // findNextNode found no successor
    | NoTargetThroughNode  // findTargetPassingThroughNode found no target
    | NoConnectingLink     // the outgoing link looked up is None
    | MissingCacheEntry    // a per-link table has no entry for the link (KeyError)
    | InvalidMode          // computeLoad with a mode other than "direct" / "inverse"
    | DivisionByZero       // a float division by zero (ZeroDivisionError)
    | NoInputArrival       // the query flow is not among the aggregated flows (unbound `arrival`)
    | Unbounded            // a hop delay is +inf and cannot shift a finite curve
    | OutOfFuel            // the recursion-depth guard is exhausted
}
