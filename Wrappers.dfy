/** The optional result of the selector: `None` stands for the C# `null` list. */
module Wrappers {
  datatype Option<+T> = None | Some(value: T)
}
