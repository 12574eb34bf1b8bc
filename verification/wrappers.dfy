/** The optional value the search returns: `None` stands for the `nil`
    result of an implicitly unwrapped optional. */
module Wrappers {

  datatype Option<+T> = None | Some(value: T)
}
