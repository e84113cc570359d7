/** A nullable value: `None` plays the part of a C# `null` reference. */
module Wrappers {

  datatype Option<+T> = None | Some(value: T)
}
