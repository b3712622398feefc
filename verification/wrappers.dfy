/** The optional value the build script receives from its environment and hands on. */
module Wrappers {
  datatype Option<+T> = None | Some(value: T)
}
