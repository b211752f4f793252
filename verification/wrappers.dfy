/** The optional value used for JavaScript lookups that may yield `undefined`. */
module Wrappers {

  datatype Option<+T> = None | Some(value: T)
}
