/** The optional value used where the editor reads "the first selected file, if any". */
module Wrappers {

  datatype Option<+T> = None | Some(value: T)

}
