/** Powers of two and the facts about division and remainder that the byte
    and bit decoders rely on. */
module Arith {

  function Pow2(n: nat): (r: nat)
    ensures r >= 1
  {
    if n == 0 then 1 else 2 * Pow2(n - 1)
  }

  lemma {:induction false} Pow2Add(a: nat, b: nat)
    ensures Pow2(a + b) == Pow2(a) * Pow2(b)
  {
    if a > 0 {
      Pow2Add(a - 1, b);
      calc {
        Pow2(a + b);
        2 * Pow2(a - 1 + b);
        2 * (Pow2(a - 1) * Pow2(b));
        (2 * Pow2(a - 1)) * Pow2(b);
      }
    }
  }

  /** The powers of two the format's field widths use. */
  lemma Pow2Values()
    ensures Pow2(0) == 1 && Pow2(1) == 2 && Pow2(3) == 8 && Pow2(5) == 32 && Pow2(7) == 128
    ensures Pow2(8) == 256 && Pow2(16) == 0x1_0000 && Pow2(20) == 0x10_0000 && Pow2(24) == 0x100_0000
    ensures Pow2(32) == 0x1_0000_0000 && Pow2(36) == 0x10_0000_0000
    ensures Pow2(41) == 0x200_0000_0000 && Pow2(44) == 0x1000_0000_0000
    ensures Pow2(64) == 0x1_0000_0000_0000_0000
  {
    assert Pow2(8) == 256;
    Pow2Add(8, 8);
    Pow2Add(16, 4);
    Pow2Add(16, 8);
    Pow2Add(16, 16);
    Pow2Add(32, 4);
    Pow2Add(36, 5);
    Pow2Add(36, 8);
    Pow2Add(32, 32);
  }

  lemma Pow2Monotone(a: nat, b: nat)
    requires a <= b
    ensures Pow2(a) <= Pow2(b)
  {
    Pow2Add(a, b - a);
    assert Pow2(b) == Pow2(a) * Pow2(b - a);
  }

  /** Division and remainder are determined by x == q * d + r with 0 <= r < d. */
  lemma DivModUnique(x: int, d: int, q: int, r: int)
    requires 0 < d && 0 <= r < d && x == q * d + r
    ensures x / d == q && x % d == r
  {
    var q', r' := x / d, x % d;
    assert (q - q') * d == r' - r;
    MulAtLeast(q - q', d);
    MulAtLeast(q' - q, d);
  }

  lemma MulAtLeast(k: int, d: int)
    ensures 1 <= k && 0 < d ==> d <= k * d
  {
    assert (k - 1) * d + d == k * d;
  }

  /** Euclid's division of a natural number. */
  lemma DivMod(x: nat, d: nat)
    requires 0 < d
    ensures 0 <= x / d && 0 <= x % d < d && x == x / d * d + x % d
  {
  }

  /** A quotient is below the other factor of a bound. */
  lemma DivBelow(x: nat, a: nat, b: nat)
    requires 0 < a && x < a * b
    ensures x / a < b
  {
    assert (x / a) * a <= x;
  }

  /** Taking the remainder by a multiple of b first does not change the remainder by b. */
  lemma ModOfMod(x: nat, b: nat, k: nat)
    requires 0 < b && 0 < k
    ensures x % (b * k) % b == x % b
  {
    var q, r := x / (b * k), x % (b * k);
    DivMod(x, b * k);
    DivMod(r, b);
    assert x == (q * k + r / b) * b + r % b;
    DivModUnique(x, b, q * k + r / b, r % b);
  }
}
