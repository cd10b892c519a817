/** The optional value used wherever the pages hand back "something or nothing". */
module Wrappers {

  datatype Option<+T> = None | Some(value: T)
}
