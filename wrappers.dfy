/** The optional value used for a neighbour that may be absent. */
module Wrappers {

  datatype Option<+T> = None | Some(value: T)
}
