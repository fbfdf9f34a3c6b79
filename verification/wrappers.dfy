/** The optional value used wherever the program may find nothing:
    a lookup that misses, a decoder that rejects its input. */
module Wrappers {

  datatype Option<+T> = None | Some(value: T)
}
