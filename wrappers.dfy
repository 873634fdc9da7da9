/** The optional value the model uses for Python's `None`. */
module Wrappers {

  datatype Option<+T> = None | Some(value: T)
}
