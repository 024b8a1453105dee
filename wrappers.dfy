/** An optional value: JavaScript's `null` result of a validator, or a value that may be absent. */
module Wrappers {

  datatype Option<+T> = None | Some(value: T)
}
