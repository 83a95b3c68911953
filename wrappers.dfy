/** The Option datatype shared by the other modules, standing for a Python value that may be
    None. */
module Wrappers {

  datatype Option<+T> = None | Some(value: T)
}
