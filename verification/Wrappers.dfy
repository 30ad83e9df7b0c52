// The optional value used throughout for std::optional and Python's None.
module Wrappers {

  datatype Option<+T> = None | Some(value: T)
}
