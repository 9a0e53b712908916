/** Failure-compatible wrappers used by the credit ledger model. */
module Wrappers {

  /** A value that may be absent: a history entry whose value is empty carries `None`. */
  datatype Option<+T> = None | Some(value: T)

  /** The outcome of a chaincode function: its result, or the error it returns. */
  datatype Result<+T, +E> = Ok(value: T) | Err(error: E)
}
