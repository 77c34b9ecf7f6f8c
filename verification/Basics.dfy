/** What every module shares: failure-carrying values, machine widths, the access modes of shadow. */
module Basics {

  datatype Option<+T> = None | Some(value: T)

  datatype Result<+T, +E> = Ok(value: T) | Err(error: E)

  const MAX_UINT32: int := 0xFFFF_FFFF
  const TWO63: int := 0x8000_0000_0000_0000

  const NOT_AVAILABLE: int := 0
  const READ_ONLY: int := 1
  const READ_WRITE: int := 2
}
