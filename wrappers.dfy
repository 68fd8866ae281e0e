/** Option, used for grid cells that may still be empty and for results that may be absent. */
module Wrappers {
  datatype Option<+T> = None | Some(value: T)
}
