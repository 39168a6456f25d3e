/** The optional value of the services' records (Python's `Optional[str]`, `None`). */
module Wrappers {

  datatype Option<+T> = None | Some(value: T)

}
