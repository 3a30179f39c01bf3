/** Optional values, outcomes and machine numbers shared by the other modules. */
module Wrappers {
  datatype Option<+T> = None | Some(value: T)

  datatype Result<+T> = Ok(value: T) | Err

  type Byte = n: nat | n < 256

  const U64_MAX: nat := 0xffff_ffff_ffff_ffff

  type U64 = n: nat | n <= U64_MAX
}
