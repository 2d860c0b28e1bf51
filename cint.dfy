/**
 * The few facts about C and C++ integer arithmetic that the scheduler and the
 * arena depend on: the range of `int`, truncating division, and powers of two.
 */
module CInt {

  /** `INT_MAX` of a 32-bit C `int`, also the "unlimited" sentinel of the scheduler. */
  const INT_MAX: int := 0x7fff_ffff

  /** The number of values of `uint64_t`; arithmetic on it wraps modulo this. */
  const U64_MODULUS: int := 0x1_0000_0000_0000_0000

  function Max(a: int, b: int): int
  {
    if a >= b then a else b
  }

  function Min(a: int, b: int): int
  {
    if a <= b then a else b
  }

  /** C's `a / b` for a positive divisor: the quotient is truncated toward zero. */
  function CDiv(a: int, b: int): (q: int)
    requires b > 0
    ensures a >= 0 ==> 0 <= a - q * b < b
    ensures a < 0 ==> -b < a - q * b <= 0
  {
    if a >= 0 then a / b else -((-a) / b)
  }

  /** `divide_up(x, y)` of the renderer's math utilities: `(x + y - 1) / y`. */
  function DivideUp(x: nat, y: nat): (q: nat)
    requires y > 0
    ensures (q - 1) * y < x <= q * y
    ensures x >= 1 ==> q >= 1
  {
    (x + y - 1) / y
  }

  /** Rounding up is monotone in the dividend. */
  lemma DivideUpMonotone(a: nat, b: nat, y: nat)
    requires y > 0 && a <= b
    ensures DivideUp(a, y) <= DivideUp(b, y)
  {
    var qa, qb := DivideUp(a, y), DivideUp(b, y);
    if qa > qb {
      MulMonotone(y, qb, qa - 1);
    }
  }

  function Pow2(k: nat): (p: nat)
    ensures p >= 1
  {
    if k == 0 then 1 else 2 * Pow2(k - 1)
  }

  /** `d` is 1, 2, 4, 8, ... */
  predicate PowerOfTwo(d: int)
    decreases if d > 0 then d else 0
  {
    d == 1 || (d >= 2 && d % 2 == 0 && PowerOfTwo(d / 2))
  }

  lemma {:induction false} Pow2IsPowerOfTwo(k: nat)
    ensures PowerOfTwo(Pow2(k))
  {
    if k > 0 {
      Pow2IsPowerOfTwo(k - 1);
      assert Pow2(k) / 2 == Pow2(k - 1);
    }
  }

  /** Between two distinct powers of two lies at least a factor of two. */
  lemma {:induction false} PowerOfTwoGap(a: int, b: int)
    requires PowerOfTwo(a) && PowerOfTwo(b) && b < a
    ensures 2 * b <= a
  {
    if b != 1 {
      assert a != 1;
      PowerOfTwoGap(a / 2, b / 2);
    }
  }

  /** Splitting a truncating halving from a further division: (x / 2) / m == x / (2 * m). */
  lemma HalveThenDivide(x: nat, m: nat)
    requires m >= 1
    ensures (x / 2) / m == x / (2 * m)
  {
    var q := x / 2;
    var q' := q / m;
    assert x == 2 * q + x % 2;
    assert q == m * q' + q % m;
    assert x == (2 * m) * q' + (2 * (q % m) + x % 2);
    DivUnique(x, 2 * m, q', 2 * (q % m) + x % 2);
  }

  lemma DivUnique(x: int, d: int, q: int, r: int)
    requires d > 0 && 0 <= r < d && x == d * q + r
    ensures x / d == q && x % d == r
  {
    var q0, r0 := x / d, x % d;
    assert x == d * q0 + r0;
    assert d * (q0 + 1) == d * q0 + d;
    assert d * (q + 1) == d * q + d;
    MulMonotone(d, q0 + 1, q);
    MulMonotone(d, q + 1, q0);
  }

  lemma MulMonotone(d: nat, a: int, b: int)
    ensures a <= b ==> d * a <= d * b
  {
    assert d * b - d * a == d * (b - a);
  }

  /** Products group either way; stated once so that callers do not leave it
      to the solver in a large context. */
  lemma MulAssociates(a: int, b: int, c: int)
    ensures a * b * c == a * (b * c)
  {
  }

  /** Quotient and remainder recompose `x`. */
  lemma DivMod(x: int, d: int)
    requires d > 0
    ensures x == d * (x / d) + x % d && 0 <= x % d < d
  {
  }

  /** One factor more, one summand more. */
  lemma MulSucc(a: int, n: int)
    ensures a * (n + 1) == a * n + a
  {
  }

  /** One factor less, one summand less. */
  lemma MulPred(n: int, a: int)
    ensures n * a == a + (n - 1) * a
  {
  }
}
