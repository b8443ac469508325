/** The usual optional-value datatype, used for provider answers and search results. */
module Wrappers {

  datatype Option<T> = None | Some(value: T)
}
