/** The optional value used wherever the application returns `None`. */
module Wrappers {

  datatype Option<+T> = None | Some(value: T)
}
