/** What several modules wrap values in. */
module Wrappers {

  datatype Option<T> = None | Some(value: T)
}
