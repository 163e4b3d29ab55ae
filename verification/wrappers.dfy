/** The optional result used where the PHP code returns `false` for "nothing". */
module Wrappers {

  datatype Option<+T> = None | Some(value: T)
}
