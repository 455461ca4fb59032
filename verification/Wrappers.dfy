/** Optional values and results. */
module Wrappers {
  datatype Option<+T> = None | Some(value: T)

  datatype Result<+T, +E> = Ok(value: T) | Err(error: E)

  /** How a statement sent to a server ends for its sender: it is carried out and answered, it is not carried out,
      or it is carried out and the answer is lost. The last two throw. */
  datatype Delivery = Succeeds | Fails | AnswerLost
}
