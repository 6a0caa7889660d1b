/** Value wrappers for the two ways a step of the extraction can end:
    it produces a value, or it raises an exception whose text is kept. */
module Attempts {

  datatype Option<+T> = None | Some(value: T)

  /** The outcome of a step that computes a value and may raise. */
  datatype Attempt<+T> = Done(value: T) | Raised(error: string)

  /** The outcome of a step that only has an effect (creating a directory,
      writing a file) and may raise. */
  datatype Outcome = Pass | Fail(error: string)
}
