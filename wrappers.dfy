/** The optional value used wherever the Python code returns or passes `None`. */
module Wrappers {

  datatype Option<+T> = None | Some(value: T)

}
