/** Failure-compatible wrappers used across the model. */
module Wrappers {

  /** A nullable value: a Django field with null=True, or a lookup that may miss. */
  datatype Option<+T> = None | Some(value: T)

  /** The outcome of a cleaning step that either yields a value or raises. */
  datatype Result<+T, +E> = Ok(value: T) | Err(error: E)
}
