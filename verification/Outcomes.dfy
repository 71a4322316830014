/** Results, options and the error values the modelled operations return. */
module Outcomes {

  datatype Option<+T> = None | Some(value: T)

  datatype Result<+T> = Ok(value: T) | Err(error: Error)

  datatype Error =
    | DocumentTooLarge(size: nat, maxSize: nat)
    | InvalidInput(field: string)
    | InvalidRange(start: nat, length: nat, documentLength: nat)
    | NotFound
    | TextCorruption(kind: CorruptionKind)
    | Corruption
    | MemoryMapping
    | InvalidDimension(expected: nat, actual: nat)
    | InvalidPosting
    | Wal
    | Config

  /** What a text-corruption message names; the recovery scanner branches on it. */
  datatype CorruptionKind =
    | ExceedsFile | LengthMismatch | BadUtf8 | ZeroLength | OverLimit | BadEntry | EmptyText
}
