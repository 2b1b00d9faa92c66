/** The optional value used wherever app.py may produce `None`. */
module Wrappers {

  datatype Option<+T> = None | Some(value: T)
}
