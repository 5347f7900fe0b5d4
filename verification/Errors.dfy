/** The error enums of linear memories and tables
    (crates/core/src/memory/error.rs, crates/core/src/table/error.rs). */
module Errors {
  import opened Prelude

  datatype MemoryError =
    | OutOfSystemMemory
    | OutOfBoundsGrowth
    | OutOfBoundsAccess
    | InvalidMemoryType
    | InvalidStaticBufferSize
    | MemoryLimiterDenied
    | MinimumSizeOverflow
    | MaximumSizeOverflow
    | MemoryOutOfFuel(requiredFuel: U64)

  datatype TableError =
    | TableOutOfSystemMemory
    | TableLimiterDenied
    | GrowOutOfBounds
    | InitOutOfBounds
    | FillOutOfBounds
    | SetOutOfBounds
    | CopyOutOfBounds
    | ElementTypeMismatch
    | TableOutOfFuel(requiredFuel: U64)
}
