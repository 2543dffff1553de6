/** The optional-value and outcome datatypes used throughout the model. */
module Wrappers {

  /** An optional value: a row that may be missing, a claim that may be absent. */
  datatype Option<+T> = None | Some(value: T)

  /** The outcome of a state-changing request: it either went through or failed with a reason. */
  datatype Outcome<+E> = Pass | Fail(error: E)
}
