/** An optional value. */
module Wrappers {
  datatype Option<T> = None | Some(value: T) {
    function GetOr(other: T): T {
      if None? then other else value
    }
  }
}
