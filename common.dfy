/**
 * Shared vocabulary: optional values and results, the C++ integer types the
 * analysis code computes with, and C++ integer division.
 */
module Common {

  datatype Option<+T> = None | Some(value: T)

  /** A result that is either a value or an error; usable with `:-`. */
  datatype Result<+T, +E> = Ok(value: T) | Err(error: E) {
    predicate IsFailure() { Err? }

    function PropagateFailure<U>(): Result<U, E>
      requires Err?
    {
      Err(error)
    }

    function Extract(): T
      requires Ok?
    {
      value
    }
  }

  /** What the C++ code does when its arithmetic leaves the defined domain. */
  datatype Fault =
    | SignedOverflow    // a signed 32-bit operation overflowed (undefined behaviour in C++)
    | DivisionByZero    // an integer division by zero (the process traps)

  const I32_MIN: int := -0x8000_0000
  const I32_MAX: int := 0x7FFF_FFFF
  const U32_MOD: int := 0x1_0000_0000

  /** C++ `int` on the platforms the server is built for. */
  type i32 = x: int | I32_MIN <= x <= I32_MAX

  /** C++ `unsigned`. */
  type u32 = x: int | 0 <= x < U32_MOD

  predicate InI32(x: int) { I32_MIN <= x <= I32_MAX }

  /** A signed 32-bit operation's exact result, or the overflow it would be. */
  function Checked(x: int): (r: Result<i32, Fault>)
    ensures r.Ok? <==> InI32(x)
    ensures r.Ok? ==> r.value == x
  {
    if InI32(x) then Ok(x) else Err(SignedOverflow)
  }

  /** Conversion of an `int` to `unsigned`: reduction modulo 2^32. */
  function ToU32(x: i32): (r: u32)
    ensures x >= 0 ==> r == x
    ensures x < 0 ==> r == x + U32_MOD
  {
    x % U32_MOD
  }

  /** Conversion of an `unsigned` back to `int` (two's complement). */
  function ToI32(u: u32): (r: i32)
    ensures u <= I32_MAX ==> r == u
    ensures u > I32_MAX ==> r < 0 && r + U32_MOD == u
  {
    if u <= I32_MAX then u else u - U32_MOD
  }

  function Abs(x: int): (r: int)
    ensures r >= 0 && (r == x || r == -x)
  {
    if x < 0 then -x else x
  }

  function Min(a: int, b: int): int { if a <= b then a else b }

  function Max(a: int, b: int): int { if a >= b then a else b }

  /**
   * C++ integer division, which truncates toward zero (Dafny's `/` is
   * Euclidean): the remainder takes the sign of the dividend.
   */
  function TruncDiv(a: int, b: int): (q: int)
    requires b != 0
    ensures a >= 0 ==> 0 <= a - q * b < Abs(b)
    ensures a < 0 ==> -Abs(b) < a - q * b <= 0
  {
    var m := Abs(a) / Abs(b);
    var q := if (a < 0) != (b < 0) then -m else m;
    TruncDivRemainder(a, b, m, q);
    q
  }

  lemma TruncDivRemainder(a: int, b: int, m: int, q: int)
    requires b != 0 && m == Abs(a) / Abs(b)
    requires q == if (a < 0) != (b < 0) then -m else m
    ensures a >= 0 ==> 0 <= a - q * b < Abs(b)
    ensures a < 0 ==> -Abs(b) < a - q * b <= 0
  {
    var n, d := Abs(a), Abs(b);
    var r := n % d;
    EuclidNonNegative(n, d);
    var p := m * d;
    assert n == p + r && 0 <= r < d;
    SignedProduct(q, b, m, (a < 0) != (b < 0));
    if a >= 0 {
      assert q * b == p;
    } else {
      assert q * b == -p;
    }
  }

  lemma EuclidNonNegative(n: int, d: int)
    requires n >= 0 && d > 0
    ensures n == (n / d) * d + n % d && 0 <= n % d < d
  {
  }

  /** (+-m) * b in terms of m * |b|. */
  lemma SignedProduct(q: int, b: int, m: int, negate: bool)
    requires b != 0 && q == (if negate then -m else m)
    ensures q * b == (if negate == (b < 0) then m * Abs(b) else -(m * Abs(b)))
  {
    if b < 0 {
      assert Abs(b) == -b;
      assert m * Abs(b) == -(m * b);
    }
    if negate {
      assert q * b == -(m * b);
    }
  }

  /** For a non-negative dividend and a positive divisor C++ and Dafny agree. */
  lemma {:induction false} TruncDivOfNonNegative(a: int, b: int)
    requires a >= 0 && b > 0
    ensures TruncDiv(a, b) == a / b
  {
    DivisionIsUnique(a, b, TruncDiv(a, b));
  }

  /** x * k < y * k with k > 0 forces x < y. */
  lemma MulCancelLess(x: int, y: int, k: int)
    requires k > 0 && x * k < y * k
    ensures x < y
  {
    if x >= y {
      MulMonotone(y, x, k);
    }
  }

  lemma MulMonotone(x: int, y: int, k: int)
    requires x <= y && k >= 0
    ensures x * k <= y * k
  {
    assert y * k - x * k == (y - x) * k;
  }

  /** The quotient is determined by the remainder bounds. */
  lemma {:induction false} DivisionIsUnique(a: int, b: int, q: int)
    requires b > 0 && 0 <= a - q * b < b
    ensures q == a / b
  {
    var d := a / b;
    assert a == d * b + a % b && 0 <= a % b < b;
    assert d * b < (q + 1) * b;
    MulCancelLess(d, q + 1, b);
    assert q * b < (d + 1) * b;
    MulCancelLess(q, d + 1, b);
  }
}
