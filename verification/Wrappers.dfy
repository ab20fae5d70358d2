/** A value that may be missing: a scan that runs off its buffer, a client that gets no reply. */
module Wrappers {
  datatype Option<+T> = None | Some(value: T)
}
