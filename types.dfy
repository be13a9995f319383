/** Names, wrappers and error identities shared by the streaming engine and the
    file service (the `streaming` package's types.go, plus the foreign errors that
    the model receives as abstract results). */
module Types {

  /** Peer identity of a websocket connection (the remote address as a string). */
  type RemoteAddress = string

  /** Logical path of an envelope, used to pick a handler. */
  type URI = string

  /** Identifier of an upload session (the textual form of a UUID). */
  type Uuid = string

  newtype byte = b: int | 0 <= b < 256

  type Bytes = seq<byte>

  datatype Option<T> = None | Some(value: T)

  /** A value or the error that Go returns beside a nil value. */
  datatype Result<T> = Ok(value: T) | Err(error: Error)

  /** Every error value the core can return. The first three are the sentinel errors
      of the streaming package; the others are produced by foreign calls or by
      `errors.New` in the file service. */
  datatype Error =
    | PoolClientIsFilled   // ErrorPoolClientIsFilled
    | ClientObjectIsNil    // ErrorClientObjectIsNil
    | HandlerIsntExist     // ErrorHandlerIsntExist
    | UpgradeFailed        // the websocket upgrade failed
    | WriteFailed          // writing to the websocket failed
    | DecodeFailed         // protobuf decoding failed
    | SessionIsExist       // a session with that identifier is already pooled
    | SessionNoneExist     // no session with that identifier is pooled
    | DiskFailed           // creating, writing or flushing the file failed

  /** What a handler receives: the sender and the whole raw frame as it was read
      from the socket (not just the envelope's payload). */
  datatype Context = Context(clientRemoteAddress: RemoteAddress, message: Bytes, error: Option<Error>)
}
