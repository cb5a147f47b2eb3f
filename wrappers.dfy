/** The optional value that Python expresses as `X or None`. */
module Wrappers {

  datatype Option<+T> = None | Some(value: T)

}
