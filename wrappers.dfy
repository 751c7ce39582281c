/** Result and Outcome: the values and failures the pipeline passes around. */
module Wrappers {

  /** The value a step computes, or the error that aborts the run. */
  datatype Result<+T, +E> = Ok(value: T) | Err(error: E)

  /** The effect of a step that changes state: it went through, or it raised. */
  datatype Outcome<+E> = Pass | Fail(error: E)
}
