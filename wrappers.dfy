/** The conventional optional value, used where Python code yields `None`. */
module Wrappers {

  datatype Option<+T> = None | Some(value: T)
}
