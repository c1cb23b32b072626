/** The optional value used where the source returns `None` or an object. */
module Wrappers {

  datatype Option<+T> = None | Some(value: T)
}
