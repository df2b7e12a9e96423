/** The optional value used for results an OS call may fail to deliver. */
module Wrappers {

  datatype Option<+T> = None | Some(value: T)
}
