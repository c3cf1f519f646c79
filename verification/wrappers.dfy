/** An optional value, used wherever the source returns a null
    pointer or the `npos` "not found" marker. */
module Wrappers {

  datatype Option<+T> = None | Some(value: T)

}
