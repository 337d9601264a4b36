/** The record type of the store: one version of one key. */
module Entities {
  import opened Builtins

  /** entities.Sequence: field order as in the Go struct (Key, Value, Timestamp). */
  datatype Sequence = Sequence(key: string, value: string, timestamp: Int64)

  /** The zero value of the Go struct, which a cache miss hands back. */
  const ZeroSequence := Sequence("", "", 0)
}
