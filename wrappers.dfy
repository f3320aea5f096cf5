/** The optional value used for the store's edit marker (JavaScript `null` is `None`). */
module Wrappers {

  datatype Option<+T> = None | Some(value: T)
}
