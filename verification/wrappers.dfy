/** The optional-result type used wherever the table answers "not found". */
module Wrappers {

  /** `None` plays the role of the absent result (`None` in the original). */
  datatype Option<+T> = None | Some(value: T)
}
