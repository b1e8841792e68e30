/** The optional value used for a session attribute that may be absent and
    for library calls that may fail. */
module Wrappers {

  datatype Option<+T> = None | Some(value: T)
}
