/** The optional value used for `std::optional` results (peek, find_next). */
module Wrappers {

  datatype Option<+T> = None | Some(value: T)
}
