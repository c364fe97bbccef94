/** What may be missing, and what may fail. */
module Outcomes {
  datatype Option<+T> = None | Some(value: T)

  datatype Result<+T> = Success(value: T) | Failure(error: string)
}
