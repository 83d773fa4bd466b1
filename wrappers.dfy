/** The optional value that the Python sources express with `None`. */
module Wrappers {

  datatype Option<+T> = None | Some(value: T)
}
