/** Fixed-width integer types and the OK/KO answer shared by every driver
    (type_def.h). Widths are unbounded in Dafny, so each C width is a subset
    type and every wrap-around is written out where the code depends on it. */
module TypeDef {

  type u8 = x: int | 0 <= x < 0x100
  type u16 = x: int | 0 <= x < 0x1_0000
  type u32 = x: int | 0 <= x < 0x1_0000_0000

  /** The `KO` (0) / `OK` (1) answer returned by the drivers. */
  datatype Answer = KO | OK

  /** A C pointer that may be NULL, as the thing it points to. */
  datatype Option<T> = None | Some(value: T)

  /** `n++` on a `u8`. */
  function Inc8(n: u8): (r: u8)
    ensures n < 0xFF ==> r == n + 1
    ensures n == 0xFF ==> r == 0
  {
    (n + 1) % 0x100
  }

  /** `n++` on a `u16`. */
  function Inc16(n: u16): (r: u16)
    ensures n < 0xFFFF ==> r == n + 1
    ensures n == 0xFFFF ==> r == 0
  {
    (n + 1) % 0x1_0000
  }

  /** `n++` on a `u32`. */
  function Inc32(n: u32): (r: u32)
    ensures n < 0xFFFF_FFFF ==> r == n + 1
    ensures n == 0xFFFF_FFFF ==> r == 0
  {
    (n + 1) % 0x1_0000_0000
  }

  /** `a + b` truncated to 32 bits. */
  function Add32(a: u32, b: u32): (r: u32)
    ensures a + b < 0x1_0000_0000 ==> r == a + b
    ensures a + b >= 0x1_0000_0000 ==> r == a + b - 0x1_0000_0000
  {
    (a + b) % 0x1_0000_0000
  }
}
