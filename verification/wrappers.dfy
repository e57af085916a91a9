/** The optional-value datatype shared by the modules of this model. */
module Wrappers {

  /** `None` stands for an absent value; for a JavaScript number it stands for `NaN`. */
  datatype Option<+T> = None | Some(value: T)
}
