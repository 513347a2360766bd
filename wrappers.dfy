/** The optional value used wherever a field of a syntax node or a lookup may be absent. */
module Wrappers {

  datatype Option<+T> = None | Some(value: T)
}
