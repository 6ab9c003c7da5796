/** Result shapes shared by the component models. */
module Wrappers {
  /** Stands for a C++ pointer that may be NULL, or for a lookup that may fail. */
  datatype Option<+T> = None | Some(value: T)
}
