/** Python's `None`-or-value, used for values the program may leave unset. */
module Wrappers {

  datatype Option<+T> = None | Some(value: T)

}
