/** Facts about Euclidean `%` and `/` with a variable positive modulus. */
module ModArith {

  lemma MulAtLeast(k: int, m: int)
    requires k >= 1 && m > 0
    ensures k * m >= m
  {
    assert k * m == (k - 1) * m + m;
    if k > 1 {
      MulAtLeast(k - 1, m);
    }
  }

  /** Quotient and remainder are unique. */
  lemma DivModUnique(y: int, m: int, q: int, r: int)
    requires m > 0 && 0 <= r < m && y == q * m + r
    ensures y / m == q && y % m == r
  {
    var q', r' := y / m, y % m;
    assert (q - q') * m == r' - r;
    if q > q' {
      MulAtLeast(q - q', m);
    } else if q < q' {
      MulAtLeast(q' - q, m);
    }
  }

  /** Adding a multiple of the modulus does not change the remainder. */
  lemma ModAddMultiple(x: int, q: int, m: int)
    requires m > 0
    ensures (x + q * m) % m == x % m
  {
    DivModUnique(x + q * m, m, x / m + q, x % m);
  }

  /** Reducing a summand first does not change the remainder of a difference. */
  lemma ModSubMod(x: int, a: int, m: int)
    requires m > 0
    ensures (x % m - a) % m == (x - a) % m
  {
    ModAddMultiple(x % m - a, x / m, m);
  }

  /** Reducing a summand first does not change the remainder of a sum. */
  lemma ModAddMod(x: int, a: int, m: int)
    requires m > 0
    ensures (x % m + a) % m == (x + a) % m
  {
    ModSubMod(x, -a, m);
  }

  /** Only the remainder of a subtrahend matters. */
  lemma ModSubReduced(x: int, a: int, m: int)
    requires m > 0
    ensures (x - a) % m == (x - a % m) % m
  {
    var q := a / m;
    assert a == q * m + a % m;
    ModAddMultiple(x - a % m, -q, m);
    assert x - a % m + (-q) * m == x - a;
  }

  /** A remainder of a value already in range is the value itself. */
  lemma ModSmall(x: int, m: int)
    requires 0 <= x < m
    ensures x % m == x
  {
    DivModUnique(x, m, 0, x);
  }

  /** Multiplying by a non-negative factor keeps the order. */
  lemma MulMonotone(a: int, b: int, m: int)
    requires a <= b && m >= 0
    ensures a * m <= b * m
  {
    if a < b && m > 0 {
      MulAtLeast(b - a, m);
      assert b * m - a * m == (b - a) * m;
    }
  }

  /** The quotient is below p exactly when the dividend is below p * m. */
  lemma DivBelow(v: int, m: int, p: int)
    requires m > 0
    ensures v / m < p <==> v < p * m
  {
    var q, r := v / m, v % m;
    if q < p {
      MulMonotone(q + 1, p, m);
    } else {
      MulMonotone(p, q, m);
    }
  }

  /** b to the power e. */
  function Pow(b: nat, e: nat): nat
  {
    if e == 0 then 1 else b * Pow(b, e - 1)
  }
}
