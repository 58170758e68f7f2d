/** The Option datatype used for lookups and checked downcasts. */
module Wrappers {

  datatype Option<+T> = None | Some(value: T)
}
