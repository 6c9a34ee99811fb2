/** The usual optional-value datatype, standing in for a nullable pointer or a missing entry. */
module Wrappers {

  datatype Option<+T> = None | Some(value: T)

}
