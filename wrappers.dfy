/** The optional values of the model: a C# field or property that may hold null
    and is not a reference to one of the model's classes. */
module Wrappers {

  datatype Option<+T> = None | Some(value: T)
}
