/** The optional value used for C's nullable `char*` slots and for the OS's
    "nothing reaped yet" answers. */
module Wrappers {
  datatype Option<+T> = None | Some(value: T) {
    function GetOr(default: T): T {
      match this
      case Some(v) => v
      case None => default
    }
  }
}
