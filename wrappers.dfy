/** The optional value used wherever the source relies on an exception being raised. */
module Wrappers {

  datatype Option<+T> = None | Some(value: T)
}
