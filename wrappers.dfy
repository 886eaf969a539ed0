/** The optional value used for the `LogoutError?` argument of the completion. */
module Wrappers {

  datatype Option<+T> = None | Some(value: T)
}
