/** Return codes of the firmware (`RET_...` and `-EINPROGRESS`). */
module Errors {
  datatype Ret =
    | Success
    | InProgress
    | InvalidParam
    | InvalidState
    | InvalidAddr
    | NotFound
    | NoMem
    | NotInitialized
    | Internal
    | Busy
    | Offline
}
