/** The optional value used wherever the source has `undefined`, a failed parse or a thrown exception. */
module Wrappers {

  datatype Option<+T> = None | Some(value: T)
}
