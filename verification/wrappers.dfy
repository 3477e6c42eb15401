/** Optional values and results with an error, as used by the resolvers.
    `None` stands for JavaScript's `undefined`; `Failure` for a thrown error. */
module Wrappers {

  datatype Option<+T> = None | Some(value: T)

  datatype Result<+R, +E> = Success(value: R) | Failure(error: E)
}
