/** The optional value used where the C code hands back a NULL pointer or
    the "notfound" sentinel string. */
module Wrappers {

  datatype Option<+T> = None | Some(value: T)
}
