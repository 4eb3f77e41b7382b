/** Exact integer exponentiation, as Python's `**` on a non-negative integer
    exponent, and the facts about it that the near-miss search relies on. */
module Powers {

  /** `b ** e` for a non-negative exponent `e` (so `Pow(b, 0) == 1`). */
  function Pow(b: int, e: nat): int
  {
    if e == 0 then 1 else b * Pow(b, e - 1)
  }

  lemma {:induction false} PowOfOne(e: nat)
    ensures Pow(1, e) == 1
  {
    if e > 0 {
      PowOfOne(e - 1);
    }
  }

  lemma {:induction false} PowNonNegative(b: int, e: nat)
    requires 0 <= b
    ensures 0 <= Pow(b, e)
  {
    if e > 0 {
      PowNonNegative(b, e - 1);
      assert b * Pow(b, e - 1) >= 0;
    }
  }

  lemma {:induction false} PowPositive(b: int, e: nat)
    requires 1 <= b
    ensures 1 <= Pow(b, e)
  {
    if e > 0 {
      PowPositive(b, e - 1);
      assert b * Pow(b, e - 1) >= Pow(b, e - 1);
    }
  }

  /** A positive exponent never makes a positive base smaller. */
  lemma PowAtLeastBase(b: int, e: nat)
    requires 1 <= b && 1 <= e
    ensures b <= Pow(b, e)
  {
    PowPositive(b, e - 1);
    assert b * Pow(b, e - 1) >= b;
  }

  /** For a positive exponent, `w ↦ w ** e` is strictly increasing on the naturals. */
  lemma {:induction false} PowStrictlyIncreasing(a: int, b: int, e: nat)
    requires 0 <= a < b && 1 <= e
    ensures Pow(a, e) < Pow(b, e)
  {
    if e > 1 {
      var pa, pb := Pow(a, e - 1), Pow(b, e - 1);
      PowStrictlyIncreasing(a, b, e - 1);
      PowNonNegative(a, e - 1);
      assert Pow(a, e) == a * pa && Pow(b, e) == b * pb;
      calc {
        b * pb - a * pa;
      ==
        (b - a) * pb + a * (pb - pa);
      >= { MulNonNegative(a, pb - pa); }
        (b - a) * pb;
      >= { MulNonNegative(b - a - 1, pb); }
        pb;
      }
    }
  }

  lemma MulNonNegative(u: int, v: int)
    requires 0 <= u && 0 <= v
    ensures 0 <= u * v
  {
  }

  /** A positive power keeps the parity of its base. */
  lemma {:induction false} PowParity(b: int, e: nat)
    requires 1 <= e
    ensures Pow(b, e) % 2 == b % 2
  {
    if e > 1 {
      PowParity(b, e - 1);
      var p := Pow(b, e - 1);
      var q, t := b / 2, p / 2;
      assert b == 2 * q + b % 2 && p == 2 * t + b % 2;
      assert b * p == 2 * (2 * q * t + q * (b % 2) + t * (b % 2)) + (b % 2) * (b % 2);
      assert (b % 2) * (b % 2) == b % 2;
    }
  }

  lemma PowMonotone(a: int, b: int, e: nat)
    requires 0 <= a <= b
    ensures Pow(a, e) <= Pow(b, e)
  {
    if a < b && e > 0 {
      PowStrictlyIncreasing(a, b, e);
    }
  }
}
