/** The optional value that `std::optional` stands for in the source. */
module Wrappers {

  datatype Option<+T> = None | Some(value: T)
}
