/** Unsigned machine words and the division facts that shift-and-mask index
    arithmetic relies on. A right shift by `s` is division by `Pow2(s)`; a
    mask of the low `k` bits is the remainder modulo `Pow2(k)`. */
module Bits {

  const BITS_PER_LONG: nat := 64
  const WORD_LIMIT: nat := 0x1_0000_0000_0000_0000

  /** An `unsigned long`. */
  type Word = w: nat | w < WORD_LIMIT

  const U32_LIMIT: nat := 0x1_0000_0000
  const U8_LIMIT: nat := 0x100

  /** A `u32`. */
  type U32 = x: nat | x < U32_LIMIT

  /** A `u8`. */
  type U8 = x: nat | x < U8_LIMIT

  function Pow2(n: nat): (r: nat)
    ensures r > 0
  {
    if n == 0 then 1 else 2 * Pow2(n - 1)
  }

  lemma {:induction false} Pow2Add(a: nat, b: nat)
    ensures Pow2(a + b) == Pow2(a) * Pow2(b)
  {
    if a > 0 {
      Pow2Add(a - 1, b);
      assert Pow2(a + b) == 2 * Pow2(a - 1 + b);
    }
  }

  lemma MulNonNeg(a: nat, b: nat)
    ensures a * b >= 0
  {
  }

  lemma DivNonNeg(a: nat, d: nat)
    requires d > 0
    ensures a / d >= 0
  {
  }

  lemma MulAtLeastOnce(k: int, d: int)
    requires k >= 1 && d > 0
    ensures k * d >= d
  {
    assert k * d == (k - 1) * d + d;
  }

  lemma MulMonotone(x: nat, y: nat, a: nat)
    requires x <= y
    ensures x * a <= y * a
  {
    assert y * a == x * a + (y - x) * a;
  }

  /** Euclidean division is determined by quotient and remainder. */
  lemma DivModUnique(x: int, d: int, q: int, r: int)
    requires d > 0 && 0 <= r < d && x == q * d + r
    ensures x / d == q && x % d == r
  {
    var q0, r0 := x / d, x % d;
    assert x == q0 * d + r0;
    assert (q - q0) * d == r0 - r;
    if q > q0 {
      MulAtLeastOnce(q - q0, d);
    } else if q < q0 {
      MulAtLeastOnce(q0 - q, d);
    }
  }

  /** Shifting right by `a` and then by `b` is shifting by both at once. */
  lemma DivDiv(x: nat, a: nat, b: nat)
    requires a > 0 && b > 0
    ensures x / a / b == x / (a * b)
  {
    var q, r := x / (a * b), x % (a * b);
    assert x == q * (a * b) + r;
    var r1, r2 := r / a, r % a;
    assert r == r1 * a + r2;
    assert r1 < b by {
      if r1 >= b {
        MulMonotone(b, r1, a);
      }
    }
    assert x == (q * b + r1) * a + r2;
    DivModUnique(x, a, q * b + r1, r2);
    DivModUnique(x / a, b, q, r1);
  }

  /** `x >> s > m` exactly when `x` lies at or beyond `(m + 1) << s`. */
  lemma DivAtLeast(x: nat, d: nat, k: nat)
    requires d > 0
    ensures x / d >= k <==> x >= k * d
  {
    var q, r := x / d, x % d;
    assert x == q * d + r;
    if q >= k {
      assert q * d >= k * d;
    } else {
      assert q + 1 <= k;
      assert (q + 1) * d <= k * d;
    }
  }

  /** Reducing the left operand first does not change a sum's remainder. */
  lemma ModAddMod(a: nat, j: nat, m: nat)
    requires m > 0
    ensures (a % m + j) % m == (a + j) % m
  {
    var q, r := a / m, a % m;
    var q2, r2 := (r + j) / m, (r + j) % m;
    assert r + j == q2 * m + r2;
    assert a + j == (q + q2) * m + r2;
    DivModUnique(a + j, m, q + q2, r2);
  }
}
