/** The optional value used by the telemetry window and the duration parser. */
module Wrappers {

  datatype Option<+T> = None | Some(value: T)
}
