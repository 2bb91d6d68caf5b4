/** The optional value the session store and the string search return. */
module Wrappers {

  datatype Option<+T> = None | Some(value: T)
}
