/**
 * Configuration constants and the record type shared by the downloader's
 * pieces (download.go:19-26).
 */
module Download {

  /** Bytes requested per range request (`sizePerRoutine`). */
  const SizePerRoutine: int := 100

  /** Number of worker routines (`numRoutines`). */
  const NumRoutines: int := 10

  /** An octet of a response body. */
  newtype byte = b: int | 0 <= b < 0x100

  /** One downloaded piece: the offset it was requested at and its body (`partialData`). */
  datatype PartialData = PartialData(start: int, body: seq<byte>)

  /** The i-th chunk offset, i * sizePerRoutine. */
  function Offset(i: int): int
  {
    i * SizePerRoutine
  }

  function Max(a: int, b: int): int
  {
    if a < b then b else a
  }

  function Min(a: int, b: int): int
  {
    if a < b then a else b
  }
}
