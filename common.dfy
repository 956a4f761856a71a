/** Machine-level value types and the error-carrying wrappers shared by every module. */
module Common {

  /** An unsigned 8-bit byte (`u8`). */
  type byte = x: int | 0 <= x < 0x100

  /** An unsigned 16-bit code unit (`u16`, the host's `wchar_t`). */
  type u16 = x: int | 0 <= x < 0x1_0000

  /** An unsigned 32-bit integer (`u32`). */
  type u32 = x: int | 0 <= x < 0x1_0000_0000

  /** A signed 32-bit integer (`i32`, `c_int`). */
  type i32 = x: int | -0x8000_0000 <= x < 0x8000_0000

  datatype Option<+T> = None | Some(value: T) {
    function GetOr(default: T): T {
      match this
      case Some(v) => v
      case None => default
    }
  }

  /** `anyhow::Result`: either a value or a human-readable error message. */
  datatype Result<+T> = Ok(value: T) | Err(msg: string)

  function Min(a: int, b: int): int {
    if a <= b then a else b
  }
}
