/** The optional value used wherever the program uses None. */
module Wrappers {
  datatype Option<+T> = None | Some(value: T)
}
