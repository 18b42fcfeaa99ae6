/** Error kinds of the minissdpd client library and the two result shapes its
    functions return: a value or an error, and "nil error" or an error. */
module Errors {

  datatype Error =
    | InvalidLength               // a negative length given to a length encoder
    | TooLong                     // a length prefix longer than MaxLengthBytes
    | Eof                         // the stream ended inside a length prefix or a string
    | NilConn                     // I/O on a client that holds no connection
    | AlreadyOpen                 // Connect on a client that already holds one
    | DialFailed                  // nothing listens on the client's socket path
    | Transport                   // a write on a broken or closed byte stream
    | NilWriter                   // a length encoder given no writer at all
    | CouldNotWrite(cause: Error) // an encoder's write failed; wraps the writer's error

  datatype Result<+T> = Success(value: T) | Failure(error: Error)

  /** Go's `error` return: `Pass` is a nil error. */
  datatype Outcome = Pass | Fail(error: Error)
}
