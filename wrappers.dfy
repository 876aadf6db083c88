/** The optional value used for SQL NULL, Python `None` and absent dictionary keys. */
module Wrappers {

  datatype Option<+T> = None | Some(value: T)
}
