/** Nullable values: C#'s `T?` and nullable references. */
module Wrappers {

  datatype Option<+T> = None | Some(value: T)
}
