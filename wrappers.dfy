/** The optional value the editor uses for "no active file" and "no match". */
module Wrappers {

  datatype Option<+T> = None | Some(value: T)
}
