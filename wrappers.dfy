/** Option, the stand-in for a pointer that may be `nullptr`. */
module Wrappers {

  datatype Option<+T> = None | Some(value: T)
}
