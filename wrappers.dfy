/** Python's `None` and the value it stands beside, shared by every module of the model. */
module Wrappers {

  datatype Option<+T> = None | Some(value: T)
}
