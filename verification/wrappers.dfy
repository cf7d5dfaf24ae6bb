/** Failure-carrying values used where the Swift source returns an optional. */
module Wrappers {

  /** Swift's `Optional`: `None` stands for `nil`. */
  datatype Option<+T> = None | Some(value: T)
}
