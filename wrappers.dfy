/** The optional value returned where the tables return `std::optional`. */
module Wrappers {
  datatype Option<+T> = None | Some(value: T)
}
