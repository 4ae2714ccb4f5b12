/** The optional value used wherever the modelled C# code works with a nullable reference. */
module Wrappers {

  datatype Option<+T> = None | Some(value: T)
}
