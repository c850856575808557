/** Optional values and the outcome of an operation that may trap. */
module Wrappers {

  /** A Swift optional: `nil` is `None`. */
  datatype Option<+T> = None | Some(value: T)

  /** What a Swift call does: return a value, or stop the program (a failed force-unwrap). */
  datatype Outcome<+T> = Returns(value: T) | Traps
}
