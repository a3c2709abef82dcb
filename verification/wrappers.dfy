/** A value that may be absent: a callback that may or may not fire on a
    tick, an indicator that may or may not be written on a tick. */
module Wrappers {

  datatype Option<+T> = None | Some(value: T)
}
