/**
 * `ceilingDiv` from the server's math utilities: division rounded up,
 * computed in unsigned 32-bit arithmetic as `(dividend + divisor - 1) / divisor`.
 * The numerator can wrap around modulo 2^32, which the header's own comment
 * warns about.
 */
module MongoMath {
  import opened Common

  /**
   * The quotient rounded up. Dividing by zero traps in the source, so the
   * divisor must be positive. When the numerator does not wrap, the result
   * is the least q with q * divisor >= dividend.
   */
  function CeilingDiv(dividend: u32, divisor: u32): (q: u32)
    requires divisor > 0
    ensures dividend + divisor - 1 < U32_MOD ==>
              q * divisor >= dividend && (q - 1) * divisor < dividend
  {
    var n := (dividend + divisor - 1) % U32_MOD;
    EuclidNonNegative(n, divisor);
    n / divisor
  }

  /** An exact multiple divides back exactly; in particular ceilingDiv(0, b) == 0. */
  lemma {:induction false} CeilingDivOfMultiple(k: nat, b: u32)
    requires b > 0 && (k + 1) * b <= U32_MOD
    ensures k * b < U32_MOD && CeilingDiv(k * b, b) == k
  {
    MulMonotone(k, k + 1, b);
    var n := k * b + b - 1;
    assert n - k * b == b - 1;
    DivisionIsUnique(n, b, k);
  }

  /** For a fixed positive divisor, ceilingDiv never decreases as the dividend grows. */
  lemma {:induction false} CeilingDivMonotone(a1: u32, a2: u32, b: u32)
    requires b > 0 && a1 <= a2 && a2 + b - 1 < U32_MOD
    ensures CeilingDiv(a1, b) <= CeilingDiv(a2, b)
  {
    var q1, q2 := CeilingDiv(a1, b), CeilingDiv(a2, b);
    // (q1 - 1) * b < a1 <= a2 <= q2 * b
    assert (q1 - 1) * b < q2 * b;
    MulCancelLess(q1 - 1, q2, b);
  }

  /**
   * When the numerator wraps, the result is no longer an upper bound:
   * q * divisor falls short of the dividend.
   */
  lemma {:induction false} CeilingDivWrapsBelow(dividend: u32, divisor: u32)
    requires divisor > 0 && dividend + divisor - 1 >= U32_MOD
    ensures CeilingDiv(dividend, divisor) * divisor < dividend
  {
    var n := dividend + divisor - 1 - U32_MOD;
    assert (dividend + divisor - 1) % U32_MOD == n;
    var q := CeilingDiv(dividend, divisor);
    EuclidNonNegative(n, divisor);
    assert q * divisor <= n;
  }

  /** A concrete wrap: rounding 2^32 - 1 up to a multiple of 2 yields 0. */
  lemma CeilingDivWrapExample()
    ensures CeilingDiv(U32_MOD - 1, 2) == 0
  {
    assert (U32_MOD - 1 + 2 - 1) % U32_MOD == 0;
  }
}
