/** The Some/None datatype used where Go has a nullable value. */
module Wrappers {

  datatype Option<+T> = None | Some(value: T)
}
