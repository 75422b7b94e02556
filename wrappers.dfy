/** The optional value used for PHP's nullable results (`?string`, `first()` returning null). */
module Wrappers {

  datatype Option<+T> = None | Some(value: T)
}
