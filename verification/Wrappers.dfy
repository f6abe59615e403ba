/** The optional values that stand for the program's null pointers and sentinels. */
module Wrappers {

  datatype Option<+T> = None | Some(value: T)
}
