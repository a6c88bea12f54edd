/** The single error kind of the network, with the rule that raised it, and the
    result shapes the operations return instead of throwing. */
module Errors {

  /** Which argument rule a call broke. */
  datatype Reason =
    | TooFewNodes     // the node count given to the constructor is at most 1
    | NodeBelowOne    // a node id is smaller than 1
    | NodeAboveCount  // a node id is larger than the node count
    | SameNode        // source and target are the same node

  /** Every rejection is an invalid argument; the reason tells the rules apart. */
  datatype Error = InvalidArgument(reason: Reason)

  /** A value, or the error that replaced it. */
  datatype Result<+T> = Ok(value: T) | Err(error: Error)

  /** The outcome of a check that produces no value. */
  datatype Outcome = Pass | Fail(error: Error)
}
