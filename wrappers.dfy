/** A cell, a parse or a conversion that may have no value. */
module Wrappers {

  datatype Option<+T> = None | Some(value: T)
}
