/** Optional values and results shared by the request handlers. */
module Wrappers {

  /** An optional value: the SD library's "invalid File" or a failed sector read become None. */
  datatype Option<+T> = None | Some(value: T)

  /** A value or an error; the listing handler's argument checks return one. */
  datatype Result<+R, +E> = Success(value: R) | Failure(error: E)
}
