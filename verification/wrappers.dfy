/** The usual optional-value datatype, used for the hold slot and for kick search results. */
module Wrappers {

  datatype Option<+T> = None | Some(value: T)
}
