/**
 * Python's numeric conversions on exact reals: `int()` of a float truncates
 * toward zero; `math.ceil`, `//` and `%` round toward minus infinity. Divisions
 * by the rail length are taken on the integer part first: for an integer
 * `n > 0`, `floor(x / n) == floor(x) // n`.
 */
module Numbers {
  function Max(a: int, b: int): int { if a >= b then a else b }
  function Min(a: int, b: int): int { if a <= b then a else b }
  function MaxReal(a: real, b: real): real { if a >= b then a else b }

  /** `int(x)` for a float `x`. */
  function Trunc(x: real): (n: int)
    ensures x >= 0.0 ==> n == x.Floor
    ensures x < 0.0 ==> n == -((-x).Floor)
  {
    if x >= 0.0 then x.Floor else -((-x).Floor)
  }

  /** `math.ceil(a / b)` for integers, as exact integer arithmetic. */
  function CeilDiv(a: int, b: int): (n: int)
    requires b != 0
    ensures b > 0 ==> (n - 1) * b < a <= n * b
    ensures b < 0 ==> n * b <= a < (n - 1) * b
  {
    if b > 0 then
      DivBounds(-a, b);
      -((-a) / b)
    else
      DivBounds(a, -b);
      -(a / (-b))
  }

  lemma DivBounds(a: int, b: int)
    requires b > 0
    ensures (a / b) * b <= a < (a / b + 1) * b
  {
    assert a == (a / b) * b + a % b;
  }

  lemma MulAtLeast(d: int, k: int)
    requires d >= 1 && k > 0
    ensures d * k >= k
  {
    assert d * k == (d - 1) * k + k;
  }

  /** Integer division is pinned down by its remainder. */
  lemma DivModUnique(p: int, k: int, q: int, rem: int)
    requires k > 0 && 0 <= rem < k && p == q * k + rem
    ensures p / k == q && p % k == rem
  {
    var d := p / k - q;
    assert d * k == rem - p % k;
    if d > 0 {
      MulAtLeast(d, k);
    } else if d < 0 {
      MulAtLeast(-d, k);
    }
  }

  lemma FloorMonotone(x: real, y: real)
    requires x <= y
    ensures x.Floor <= y.Floor
  {
  }

  lemma MulMonotone(c: real, x: real, y: real)
    requires c >= 0.0 && x <= y
    ensures c * x <= c * y
  {
  }

  /**
   * Python's float `x % n` for an integer `n > 0`: what is left of `x` once
   * `floor(x / n)` whole multiples of `n` are taken away.
   */
  function FloorMod(x: real, n: int): (m: real)
    requires n > 0
    ensures 0.0 <= m < n as real
  {
    var k := x.Floor;
    assert k == (k / n) * n + k % n;
    x - ((k / n) * n) as real
  }

  /** `int(x % n)` is the integer part of `x` taken modulo `n`. */
  lemma TruncFloorMod(x: real, n: int)
    requires n > 0
    ensures Trunc(FloorMod(x, n)) == x.Floor % n
  {
    var k := x.Floor;
    assert k == (k / n) * n + k % n;
    var m := FloorMod(x, n);
    assert m == (x - k as real) + (k % n) as real;
  }

  lemma PositiveProduct(a: real, b: real)
    requires a > 0.0 && b > 0.0
    ensures a * b > 0.0
  {
  }

  lemma PositiveQuotient(a: real, b: real)
    requires a > 0.0 && b > 0.0
    ensures a / b > 0.0
  {
  }

  /** Dividing out a non-zero factor: `(a * b) / b == a`. */
  lemma CancelFactor(a: real, b: real)
    requires b != 0.0
    ensures (a * b) / b == a
  {
  }

  lemma IntDistribute(a: int, b: int, c: int)
    ensures (a + b) * c == a * c + b * c
  {
  }

  lemma MulMonotoneInt(a: int, b: int, c: int)
    requires a <= b && c >= 0
    ensures a * c <= b * c
  {
  }

  /** A positive product with a positive factor has a positive other factor. */
  lemma PositiveQuotientFactor(a: real, b: real)
    requires a * b > 0.0 && b > 0.0
    ensures a > 0.0
  {
  }
}
