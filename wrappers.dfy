/** An optional value, used throughout the solver. */
module Wrappers {

  datatype Option<+T> = None | Some(value: T)

}
