/** Small result types shared by the other modules. */
module Wrappers {

  /** A value that may be missing: an absent XML attribute, a lookup that found nothing. */
  datatype Option<T> = None | Some(value: T)

  /** The outcome of a Python call that may raise: a value, or an exception seen by the caller. */
  datatype Attempt<T> = Ok(value: T) | Raised
}
