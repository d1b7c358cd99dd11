/** What a search or a partial function returns. */
module Wrappers {

  datatype Option<+T> = None | Some(value: T)
}
