/** The optional value used wherever the program may find nothing: a missing match, a missing occurrence. */
module Wrappers {

  datatype Option<+T> = None | Some(value: T)

}
