/** The optional value used where the installer stores `None`. */
module Wrappers {
  datatype Option<+T> = None | Some(value: T)
}
