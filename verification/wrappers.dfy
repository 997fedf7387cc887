/** A value that may be absent: stands for a TypeScript `X | null`. */
module Wrappers {
  datatype Option<+T> = None | Some(value: T)
}
