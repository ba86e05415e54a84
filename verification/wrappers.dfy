/** Failure-compatible wrapper used for the values Python represents with `None`. */
module Wrappers {

  /** `None` is Python's `None` (or an absent value); `Some(v)` a present one. */
  datatype Option<+T> = None | Some(value: T)
}
