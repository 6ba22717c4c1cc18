/** The "found / not found" result of the bus's lookups. */
module Wrappers {

  /** Some(value) for a found entity; None where the bus answers "not found". */
  datatype Option<+T> = None | Some(value: T)
}
