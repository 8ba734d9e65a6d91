/** Result of an operation that the library reports through a null token, a null
    pointer or a thrown error. */
module Wrappers {
  datatype Option<+T> = None | Some(value: T)
}
