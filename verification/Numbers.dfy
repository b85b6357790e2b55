/** Arithmetic shared by the models. */
module Numbers {
  const U32_MAX: nat := 4294967295

  function Min(a: int, b: int): int { if a <= b then a else b }
  function Max(a: int, b: int): int { if a >= b then a else b }

  /** A counter that stops at the largest u32. */
  function Saturated(n: nat): nat { if n <= U32_MAX then n else U32_MAX }

  function SaturatingSub(a: nat, b: nat): nat { if a >= b then a - b else 0 }

  function MaxReal(x: real, y: real): real { if x >= y then x else y }
  function AbsReal(x: real): real { if x < 0.0 then -x else x }

  function Pow(x: real, k: nat): real {
    if k == 0 then 1.0 else x * Pow(x, k - 1)
  }

  /** `x` multiplied by `c`, `k` times. */
  function Shrunk(c: real, x: real, k: nat): real {
    if k == 0 then x else c * Shrunk(c, x, k - 1)
  }

  lemma Reassociate(x: real, y: real, z: real)
    ensures x * (y * z) == (x * y) * z
  {
  }

  /** Shrinking `k` times is multiplying by c^k. */
  lemma {:induction false} ShrunkIsPow(c: real, x: real, k: nat)
    ensures Shrunk(c, x, k) == Pow(c, k) * x
  {
    if k == 0 {
    } else {
      ShrunkIsPow(c, x, k - 1);
      Reassociate(c, Pow(c, k - 1), x);
    }
  }

  lemma MulLessEq(a: int, x: int, y: int)
    requires 0 <= a && x <= y
    ensures a * x <= a * y
  {
  }

  lemma ProductNonNegative(x: real, y: real)
    requires 0.0 <= x && 0.0 <= y
    ensures 0.0 <= x * y
  {
  }
}
