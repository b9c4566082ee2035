/** Failure-compatible result types shared by the store and the read handlers. */
module Wrappers {

  /** A value that may be absent: a nullable reference, or a lookup that found nothing. */
  datatype Option<+T> = None | Some(value: T)

  /** The outcome of a store write: the new store, or the integrity error that rejected it. */
  datatype Result<+T, +E> = Ok(value: T) | Err(error: E)
}
