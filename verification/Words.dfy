/** Machine words as bounded integers, and powers of two. */
module Words {
  const TWO16: nat := 0x1_0000
  const TWO31: nat := 0x8000_0000
  const TWO32: nat := 0x1_0000_0000
  const TWO64: nat := 0x1_0000_0000_0000_0000

  type Byte = x: int | 0 <= x < 0x100
  type Word16 = x: int | 0 <= x < 0x1_0000
  type Word32 = x: int | 0 <= x < 0x1_0000_0000
  type Word64 = x: int | 0 <= x < 0x1_0000_0000_0000_0000

  /** The low 32 bits of the two's-complement form of x. */
  function Low32(x: int): Word32 { x % 0x1_0000_0000 }

  /** The low 64 bits of the two's-complement form of x. */
  function Low64(x: int): Word64 { x % 0x1_0000_0000_0000_0000 }

  function Pow2(n: nat): (p: nat)
    ensures p >= 1
  {
    if n == 0 then 1 else 2 * Pow2(n - 1)
  }

  lemma {:induction false} Pow2Add(m: nat, n: nat)
    ensures Pow2(m + n) == Pow2(m) * Pow2(n)
  {
    if m > 0 {
      Pow2Add(m - 1, n);
    }
  }

  lemma Pow2Of16()
    ensures Pow2(16) == TWO16
  {
    assert Pow2(8) == 0x100;
    Pow2Add(8, 8);
  }

  lemma Pow2Of32()
    ensures Pow2(32) == TWO32
  {
    Pow2Of16();
    Pow2Add(16, 16);
  }

  lemma MulMono(x: int, y: int, b: int)
    requires x <= y && b >= 0
    ensures x * b <= y * b
  {
    assert y * b == x * b + (y - x) * b;
  }

  lemma MulCancelLess(x: int, y: int, b: int)
    requires b >= 0 && x * b < y * b
    ensures x < y
  {
    if y <= x {
      MulMono(y, x, b);
    }
  }

  /** Quotient and remainder are the only pair with q*b + r == n and 0 <= r < b. */
  lemma DivModUnique(n: int, b: int, q: int, r: int)
    requires 0 <= r < b
    requires n == q * b + r
    ensures q == n / b && r == n % b
  {
    assert n == n / b * b + n % b;
    assert (n / b + 1) * b == n / b * b + b;
    assert (q + 1) * b == q * b + b;
    MulCancelLess(q, n / b + 1, b);
    MulCancelLess(n / b, q + 1, b);
  }

  /** Adding a multiple of m does not change the remainder modulo m. */
  lemma ModAddMultiple(x: int, k: int, m: int)
    requires m > 0
    ensures (x + k * m) % m == x % m
  {
    DivModUnique(x + k * m, m, x / m + k, x % m);
  }
}
