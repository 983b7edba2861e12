/** Nullable values. The C containers take and return raw pointers that may be
    NULL; the model writes such a pointer as an `Option`, with `None` for NULL. */
module Wrappers {

  datatype Option<+T> = None | Some(value: T)
}
