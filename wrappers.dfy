/** Optional values and the outcome of a parsing step. */
module Wrappers {

  /** A value that may be absent: a C pointer that may be NULL. */
  datatype Option<T> = None | Some(value: T)

  /** `RESULT` (`OK`, `ERR`) widened by what the C does besides returning:
      `Undefined` where it reads or writes outside its buffers (or reads a value
      never written), `Fatal` where it calls `error(1, ...)` and the process
      exits, and `DepthExceeded` where composite glyphs nest deeper than the
      bound the model follows. */
  datatype Outcome = OK | ERR | Undefined | Fatal | DepthExceeded
}
