/** Machine integers, C# casts and the optional value, shared by every component. */
module Common {

  datatype Option<T> = None | Some(value: T) {
    function GetOr(default: T): T { if Some? then value else default }
  }

  const TWO32 := 0x1_0000_0000
  const TWO64 := 0x1_0000_0000_0000_0000
  const INT32_MAX := 0x7FFF_FFFF

  type byte = b: int | 0 <= b < 256
  type u16 = x: int | 0 <= x < 0x1_0000
  type u32 = x: int | 0 <= x < TWO32
  type u64 = x: int | 0 <= x < TWO64
  type int32 = x: int | -INT32_MAX - 1 <= x <= INT32_MAX

  /** The unchecked C# cast of an Int64 to Int32. */
  function ToInt32(x: int): (r: int)
    ensures -INT32_MAX - 1 <= r <= INT32_MAX
    ensures -INT32_MAX - 1 <= x <= INT32_MAX ==> r == x
  {
    (x + 0x8000_0000) % 0x1_0000_0000 - 0x8000_0000
  }

  /** The unchecked C# arithmetic of Int64. */
  function ToInt64(x: int): (r: int)
    ensures -0x8000_0000_0000_0000 <= x < 0x8000_0000_0000_0000 ==> r == x
  {
    (x + 0x8000_0000_0000_0000) % 0x1_0000_0000_0000_0000 - 0x8000_0000_0000_0000
  }

  /** The casts keep the low 32 and 64 bits. */
  lemma CastsKeepLowBits(x: int)
    ensures -0x8000_0000 <= ToInt32(x) < 0x8000_0000 && ToInt32(x) % 0x1_0000_0000 == x % 0x1_0000_0000
    ensures -0x8000_0000_0000_0000 <= ToInt64(x) < 0x8000_0000_0000_0000
    ensures ToInt64(x) % 0x1_0000_0000_0000_0000 == x % 0x1_0000_0000_0000_0000
  {}

  function Min(a: int, b: int): int { if a <= b then a else b }

  function Max(a: int, b: int): int { if a <= b then b else a }
}
