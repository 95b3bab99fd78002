/** The C# nullable reference or nullable value: `null` is `None`. */
module Wrappers {

  datatype Option<+T> = None | Some(value: T)
}
