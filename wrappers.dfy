/** The optional value the C# code expresses with `null` (FirstOrDefault, a nullable DeletedAt). */
module Wrappers {
  datatype Option<+T> = None | Some(value: T)
}
