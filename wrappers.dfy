/** The optional result the source signals with a `bool` return and an out-parameter. */
module Wrappers {

  datatype Option<+T> = None | Some(value: T)
}
