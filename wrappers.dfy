/** The optional value used where the C# code has a reference that may be null. */
module Wrappers {

  datatype Option<+T> = None | Some(value: T)
}
