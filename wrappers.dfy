/** The outcome of one remote register read. */
module Wrappers {

  /** `None` stands for a read that raised or returned no value; `Some(v)` for a raw reading `v`. */
  datatype Option<+T> = None | Some(value: T)
}
