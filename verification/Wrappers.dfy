/** Shared result shapes. */
module Wrappers {
  /** A pointer or an optional value of the C program: None stands for NULL. */
  datatype Option<+T> = None | Some(value: T) {
    function GetOr(default: T): T {
      if Some? then value else default
    }
  }

  /** The status codes the modelled functions return. */
  datatype Status =
    | Ok
    | InvalidArgument
    | Unsupported
    | ResourceLimit
    | NoMemory
    | InternalError
}
