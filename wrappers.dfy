/** The optional value used where the source relies on an exception being
    caught: a timezone whose offset could not be resolved is `None`. */
module Wrappers {

  datatype Option<+T> = None | Some(value: T)
}
