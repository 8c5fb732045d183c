/** Optional values and error-carrying results shared by the ledger and the webhook mapper. */
module Wrappers {

  /** A value that may be absent (Python's `None`, an empty dict, an empty result). */
  datatype Option<T> = None | Some(value: T)

  /** Either a value or the exception the source would raise instead; usable with `:-`. */
  datatype Result<T, E> = Ok(value: T) | Err(error: E) {

    predicate IsFailure() {
      Err?
    }

    function PropagateFailure<U>(): Result<U, E>
      requires Err?
    {
      Err(error)
    }

    function Extract(): T
      requires Ok?
    {
      value
    }
  }
}
