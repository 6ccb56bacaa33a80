/** The optional-value wrapper used for nullable fields and lookups. */
module Wrappers {

  /** A value that may be absent: `null`/`undefined` on the TypeScript side. */
  datatype Option<+T> = None | Some(value: T)
}
