/** The 32-bit machine words the kernel computes with (`uintptr_t`, `size_t`, `int32_t`). */
module Word32 {

  const U32 := 0x1_0000_0000

  /** What is left of a mathematical integer once it is stored in an unsigned 32-bit word. */
  function Wrap(x: int): (w: nat)
    ensures w < U32
    ensures 0 <= x < U32 ==> w == x
  {
    x % U32
  }

  /** The same for a signed 32-bit word in two's complement. */
  function WrapSigned(x: int): (w: int)
    ensures -0x8000_0000 <= w < 0x8000_0000
    ensures -0x8000_0000 <= x < 0x8000_0000 ==> w == x
  {
    var u := x % U32;
    if u < 0x8000_0000 then u else u - U32
  }

  function Min(a: int, b: int): int {
    if a > b then b else a
  }

  function Max(a: int, b: int): int {
    if a < b then b else a
  }
}
