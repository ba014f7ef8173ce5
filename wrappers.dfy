/** The optional result of a lookup, an insertion or a removal (std::optional). */
module Wrappers {

  datatype Option<T> = None | Some(value: T)
}
