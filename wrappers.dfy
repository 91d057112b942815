/** An optional value, shared by the other modules. */
module Wrappers {

  /** A value that may be absent: an optional field, a read that found nothing,
      or a computation that failed. */
  datatype Option<+T> = None | Some(value: T)
}
