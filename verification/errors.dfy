/** The domain error raised by the dispatcher (app/core/errors.py). */
module Errors {

  /** Which of the two situations raised the error; the source tells them
      apart only by the exception message. */
  datatype FailureReason = ExceedsCapacity | UnsatisfiableLoad

  /** The single exception type `DispatchComputationError`. */
  datatype DispatchError = DispatchComputationError(reason: FailureReason)
}
