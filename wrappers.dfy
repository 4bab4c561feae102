/** The optional value used for JavaScript's `null`-or-something fields. */
module Wrappers {

  datatype Option<+T> = None | Some(value: T)
}
