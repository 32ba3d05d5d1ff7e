/** The failures the network library reports, either as a returned Go `error`
    or as a `panic`; the model treats both as a failure value. */
module Errors {

  datatype Error =
    | DuplicateName(name: string)                         // addNode
    | MissingChild(name: string)                          // addConnections, child lookup
    | MissingParent(name: string)                         // addConnections, parent lookup
    | CptDimension(name: string, expected: nat, actual: nat) // ValidateCPT
    | UnknownNode(name: string)                           // UpdateGraphValues, GatherNodes
    | InvalidKey(key: string)                             // Sample, CPT key not present
    | InvalidAssignment(value: string)                    // ResetWithAssignment
    | CapacityOutOfRange                                  // make() with a negative capacity

  /** A value or the error that stopped the operation producing it. */
  datatype Result<+T> = Success(value: T) | Failure(error: Error) {

    predicate IsFailure() {
      Failure?
    }

    function PropagateFailure<U>(): Result<U>
      requires Failure?
    {
      Failure(error)
    }

    function Extract(): T
      requires Success?
    {
      value
    }
  }

  /** The outcome of an operation that returns only an error (Go's `error`, nil when fine). */
  datatype Status = Ok | Err(error: Error)
}
