/** Ruby's `nil` for a missing hash entry. */
module Wrappers {

  datatype Option<+T> = None | Some(value: T)
}
