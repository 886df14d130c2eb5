/** The optional value used for the table builder's `currentCategory`, which starts as `null`. */
module Wrappers {

  datatype Option<+T> = None | Some(value: T)
}
