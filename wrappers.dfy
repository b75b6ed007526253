/** Small shared types: an optional value and unsigned byte/word helpers. */
module Wrappers {

  datatype Option<+T> = None | Some(value: T)

  /** An unsigned 8-bit value, as stored in the packaged files. */
  newtype Byte = b: int | 0 <= b < 256

  const UINT64_LIMIT: int := 0x1_0000_0000_0000_0000
  const INT64_MAX: int := 0x7FFF_FFFF_FFFF_FFFF

  function Max(a: int, b: int): int { if a < b then b else a }
  function Min(a: int, b: int): int { if a < b then a else b }
}
