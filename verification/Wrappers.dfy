/** Stand-ins for the null pointers and -1 results of the C code. */
module Wrappers {
  datatype Option<+T> = None | Some(value: T)
  {
    function Or(other: T): T {
      match this case None => other case Some(x) => x
    }
  }
}
