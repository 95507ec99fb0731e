/** Shared value types. */
module Types {
  datatype Option<+T> = None | Some(value: T)

  datatype Result<+T, +E> = Ok(value: T) | Err(error: E)

  const U64_MAX: int := 0xFFFF_FFFF_FFFF_FFFF

  type u64 = n: int | 0 <= n <= 0xFFFF_FFFF_FFFF_FFFF
  type u32 = n: int | 0 <= n <= 0xFFFF_FFFF

  function SaturatingAdd(a: u64, b: u64): (r: u64)
    ensures r == if a + b <= U64_MAX then a + b else U64_MAX
  {
    if a + b > U64_MAX then 0xFFFF_FFFF_FFFF_FFFF else a + b
  }
}
