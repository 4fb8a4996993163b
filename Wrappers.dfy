/** The optional value used wherever the source keeps -1 for "no node". */
module Wrappers {

  datatype Option<+T> = None | Some(value: T)

}
