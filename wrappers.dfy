/** The optional value used wherever the source may hold `nil`. */
module Wrappers {

  datatype Option<+T> = None | Some(value: T)
}
