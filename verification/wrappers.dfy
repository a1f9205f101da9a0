/** Failure-compatible wrappers shared by the dispatch model. */
module Wrappers {

  /** `None` stands for an infeasible (infinite-cost) state of the solver. */
  datatype Option<+T> = None | Some(value: T)

  /** The outcome of an operation that may raise a domain error. */
  datatype Result<+R, +E> = Success(value: R) | Failure(error: E)
}
