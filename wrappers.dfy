/** The optional value used wherever the source has a nullable field or a
    lookup that may find nothing. */
module Wrappers {

  datatype Option<+T> = None | Some(value: T)
}
