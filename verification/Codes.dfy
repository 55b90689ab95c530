/** The gRPC status codes. */
module Codes {
  datatype Code =
    | Ok | Cancelled | Unknown | InvalidArgument | DeadlineExceeded | NotFound | AlreadyExists
    | PermissionDenied | ResourceExhausted | FailedPrecondition | Aborted | OutOfRange
    | Unimplemented | Internal | Unavailable | DataLoss | Unauthenticated
}
