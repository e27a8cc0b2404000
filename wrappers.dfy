/** The optional value used for Swift optionals: a CGRect that may be the null
    rectangle, a stage whose inference call produced no result list. */
module Wrappers {
  datatype Option<+T> = None | Some(value: T)
}
