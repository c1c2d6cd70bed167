/** The optional value used for search results and the selected cell. */
module Wrappers {
  datatype Option<T> = None | Some(value: T)
}
