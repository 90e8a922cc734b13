/** The optional result a Foundation call or the formatter may produce (nil in Swift). */
module Wrappers {

  datatype Option<+T> = None | Some(value: T)
}
