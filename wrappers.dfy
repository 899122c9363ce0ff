/** Small helper datatypes shared by the two providers. */
module Wrappers {

  /** A value that may be absent; `None` stands for a C# `null` string. */
  datatype Option<+T> = None | Some(value: T)
}
