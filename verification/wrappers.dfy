/** The optional-value datatype used for the partial operations of the model
    (regex searches, the abstract image transcoder and the UTF-8 decoder). */
module Wrappers {

  datatype Option<+T> = None | Some(value: T)
}
