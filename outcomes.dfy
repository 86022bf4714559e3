/**
  Values shared by every stage of the pacing pipeline: an optional value, the
  failures the analyzer and the detector report to their caller, and a result
  that carries either a value or one of those failures.
 */
module Outcomes {

  datatype Option<+T> = None | Some(value: T)

  /** The failures the core reports instead of a value (an `alert` followed by `return`). */
  datatype Failure =
    | InsufficientData      // fewer than two splits handed to the analyzer
    | InsufficientEvents    // the video scan found fewer than three wall contacts
    | MissingPrerequisite   // no video is loaded

  datatype Result<+T> = Ok(value: T) | Err(error: Failure)
}
