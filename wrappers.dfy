/** The missing value of a pandas column, and the exception a chain read may raise. */
module Wrappers {

  datatype Option<+T> = None | Some(value: T)
}
