/** The optional value used for the paging cursor and the request's end time. */
module Wrappers {

  datatype Option<+T> = None | Some(value: T)
}
