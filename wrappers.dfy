/** The optional value used wherever the notebook leaves a field or a result absent. */
module Wrappers {

  datatype Option<+T> = None | Some(value: T)

}
