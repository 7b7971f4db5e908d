/** The result of a parse that may fail: `int.TryParse` yields either a value or nothing. */
module Wrappers {

  datatype Option<+T> = None | Some(value: T)
}
