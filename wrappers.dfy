/** The failure-carrying result used where the container reports a recoverable error. */
module Wrappers {

  /** `None` stands for a lookup that finds nothing (the container's out-of-range condition). */
  datatype Option<+T> = None | Some(value: T)
}
