/** Java's `Optional` and nullable references, as one datatype. */
module Wrappers {

  datatype Option<+T> = None | Some(value: T)
}
