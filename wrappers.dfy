/** The optional values, call results and octets shared by the model. */
module Wrappers {

  /** An optional value: a lookup that may find nothing, a parse that may reject. */
  datatype Option<+T> = None | Some(value: T)

  /** The outcome of a remote call: its value, or the error it reported. */
  datatype Result<+T, +E> = Success(value: T) | Failure(error: E)

  /** The only thing the workflow learns about a failed remote call is that it failed. */
  datatype RemoteError = RemoteError

  /** Octets, as produced by a text encoder and consumed by base64. */
  type byte = b: int | 0 <= b < 256
}
