/** The optional value that `VertexIndex::neighbor` returns. */
module Wrappers {

  datatype Option<+T> = None | Some(value: T)
}
