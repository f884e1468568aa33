/** The optional value used for the selected cell (Java's `Optional`). */
module Wrappers {

  datatype Option<+T> = None | Some(value: T)
}
