/** The optional value used for Python's `None` results and for null cells. */
module Wrappers {

  datatype Option<+T> = None | Some(value: T)

}
