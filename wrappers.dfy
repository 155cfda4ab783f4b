/** The optional value used throughout the model: `None` stands for a
    JavaScript `undefined` field, and for the number NaN where an integer
    was expected. */
module Wrappers {

  datatype Option<+T> = None | Some(value: T)
}
