/** The optional value returned by the library parsers (`int.TryParse`, `IPAddress.TryParse`). */
module Wrappers {
  datatype Option<+T> = None | Some(value: T)
}
