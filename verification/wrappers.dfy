/** The optional value used wherever the client reads a key that may be absent
    or returns nothing on failure. */
module Wrappers {

  datatype Option<+T> = None | Some(value: T)
}
