// The usual optional value, standing for a pointer that may be RT_NULL.
module Wrappers {
  datatype Option<+T> = None | Some(value: T)
}
