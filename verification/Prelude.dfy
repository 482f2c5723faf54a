/** Small definitions shared by every part of the model. */
module Prelude {

  datatype Option<+T> = None | Some(value: T) {
    function GetOr(default: T): T {
      match this
      case Some(v) => v
      case None => default
    }
  }

  type byte = b: int | 0 <= b < 256

  type u16 = n: int | 0 <= n < 0x1_0000

  type u32 = n: int | 0 <= n < 0x1_0000_0000

  type u64 = n: int | 0 <= n < 0x1_0000_0000_0000_0000

  /** Release builds switch overflow checks off, so unsigned arithmetic wraps around. */
  function Wrap64(n: int): u64 {
    n % 0x1_0000_0000_0000_0000
  }
}
