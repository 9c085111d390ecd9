/** The optional value used wherever the program may raise instead of returning. */
module Wrappers {
  datatype Option<+T> = None | Some(value: T)
}
