/** The optional value the source writes as `X | None`. */
module Wrappers {

  datatype Option<+T> = None | Some(value: T)
}
