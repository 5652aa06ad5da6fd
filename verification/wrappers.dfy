/** The optional value used wherever the Python code has `None` or a value. */
module Wrappers {

  datatype Option<+T> = None | Some(value: T)
}
