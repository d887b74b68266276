/** The optional value used wherever the checker looks something up. */
module Wrappers {

  datatype Option<+T> = None | Some(value: T)
}
