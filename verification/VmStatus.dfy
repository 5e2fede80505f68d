/** The status codes that every call of the virtual machine returns. */
module VmStatus {
  datatype Status =
    | Failure
    | Success
    | InvalidParameter
    | InvalidId
    | InvalidState
    | InsufficientResources
}
