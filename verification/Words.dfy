/** Bytes, and unsigned 32-bit arithmetic as the `ub4` counters of the library do it. */
module Words {

  const U32 := 0x1_0000_0000

  type ub4 = x: int | 0 <= x < U32

  type byte = x: int | 0 <= x < 256

  function Add32(a: int, b: int): (r: ub4)
  {
    (a + b) % U32
  }

  function Mul32(a: ub4, b: ub4): (r: ub4)
  {
    (a * b) % U32
  }

  function Max(a: int, b: int): (r: int)
    ensures r >= a && r >= b && (r == a || r == b)
  {
    if a >= b then a else b
  }

  function Min(a: int, b: int): (r: int)
    ensures r <= a && r <= b && (r == a || r == b)
  {
    if a <= b then a else b
  }

  lemma SmallSum(a: nat, b: nat)
    requires a + b < U32
    ensures Add32(a, b) == a + b
  {
  }

  /** Adding one part at a time wraps to the same counter as adding the sum. */
  lemma Add32Assoc(a: int, b: int, c: int)
    ensures Add32(Add32(a, b), c) == Add32(a, b + c)
  {
  }
}
