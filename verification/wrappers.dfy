/** The optional value used wherever the C# source has a nullable reference. */
module Wrappers {

  datatype Option<+T> = None | Some(value: T)
}
