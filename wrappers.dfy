/** The optional value used for the results of .NET calls that may return
    null or throw (a parse that fails, a missing argument list). */
module Wrappers {

  datatype Option<+T> = None | Some(value: T)
}
