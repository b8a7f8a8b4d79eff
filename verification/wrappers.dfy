/** Optional values and the success-or-error result that the data layer's
    promises settle to (an Error's message on the error side). */
module Wrappers {

  datatype Option<+T> = None | Some(value: T)

  datatype Result<+T> = Success(value: T) | Failure(error: string)
}
