/** Go's 64-bit integers and the error values the storage engine can return. */
module Builtins {

  const MinInt64: int := -0x8000_0000_0000_0000
  const MaxInt64: int := 0x7FFF_FFFF_FFFF_FFFF

  /** Go's `int64`; Go's `int` has the same range on the 64-bit platforms the engine targets. */
  type Int64 = x: int | MinInt64 <= x <= MaxInt64

  /** The errors that reach a caller of the engine, one constructor per origin. */
  datatype Error =
    | StatFailed(path: string)   // os.Stat on the root directory, reported by New
    | NotExist(path: string)     // os.Open of a log file that does not exist
    | OpenFailed(path: string)   // os.OpenFile refused to open a log for appending
    | WriteFailed(path: string)  // (*os.File).WriteString could not append the line
    | NumError(num: string)      // strconv.Atoi could not parse a timestamp field
}
