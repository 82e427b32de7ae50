/** Failure-carrying results shared by every module of the claim matcher. */
module Outcomes {

  datatype Option<T> = None | Some(value: T)

  /** The exceptions the claim matcher can raise, one per cause. */
  datatype Error =
    | EmptySeparator        // ValueError: `str.split` given an empty separator
    | SeparatorNotFound     // IndexError: `claim.split(prefix, 1)[1]` when `prefix` does not occur
    | NoUnmatchedCandidate  // TypeError: `matched[None]` when a row had no column to score
    | IndexOutOfRange       // IndexError: a list or table index past the end

  /** The value an operation returns, or the exception it raises. */
  datatype Result<T> = Ok(value: T) | Err(error: Error)
}
