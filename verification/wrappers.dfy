/** Failure-carrying return values shared by the whole model.
    The modelled code reports failure through `bool` returns, null pointers
    and exceptions; each becomes one of these datatypes. */
module Wrappers {

  datatype Option<+T> = None | Some(value: T)

  /** `Failure` carries the message of the exception the source throws. */
  datatype Result<+T> = Success(value: T) | Failure(error: string)
}
