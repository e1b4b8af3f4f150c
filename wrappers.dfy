/** The optional value used wherever the source may get nothing back
    (a `fetchone()` with no row, a JavaScript lookup of a missing key). */
module Wrappers {

  datatype Option<+T> = None | Some(value: T)
}
