/** Small value wrappers shared by the model: an optional value, and the
    outcome of a call into a foreign library that may raise. */
module Outcomes {

  datatype Option<+T> = None | Some(value: T)

  /** What a foreign call does: it raises an exception, or it returns a value. */
  datatype Outcome<+T> = Raises | Returns(value: T)
}
