/** The optional-value type used where the C code signals "nothing here"
    through a 0 return and an untouched output struct. */
module Wrappers {

  datatype Option<+T> = None | Some(value: T)
}
