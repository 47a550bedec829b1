/** The optional result of a lookup. The C functions return a pointer that is
    NULL when nothing matches; here that is `None`. */
module Wrappers {

  datatype Option<+T> = None | Some(value: T)
}
