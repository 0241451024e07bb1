/** Failure-carrying values shared by the model: the driver's and the decoder's
    errors, and the `?`-propagated result of every service operation. */
module Results {

  /** An optional value (Rust's `Option`). */
  datatype Option<+T> = None | Some(value: T)

  /** Why an operation failed.
      - QueryError: the datastore rejected the statement or the row stream broke.
      - DecodeError: a row lacked the named column, or it had the wrong type. */
  datatype Error = QueryError | DecodeError(column: string)

  /** The outcome of a fallible operation: a value, or the error that aborted it. */
  datatype Result<+T> = Ok(value: T) | Err(error: Error)
}
