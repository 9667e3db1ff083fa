/** The optional value, standing for std::string::npos and for an absent upload body. */
module Wrappers {
  datatype Option<+T> = None | Some(value: T)
}
