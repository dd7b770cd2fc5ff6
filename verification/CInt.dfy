/** C integer arithmetic: division and casts that truncate toward zero. */
module CInt {

  /** `a / b` of C for a positive divisor: the quotient rounded toward zero. */
  function Div(a: int, b: int): (q: int)
    requires b > 0
  {
    if a >= 0 then a / b else -((-a) / b)
  }

  /** `a % b` of C for a positive divisor: the remainder that takes the sign of `a`. */
  function Mod(a: int, b: int): (r: int)
    requires b > 0
  {
    a - Div(a, b) * b
  }

  /** `(int) x` of C for a double: the fraction is dropped. */
  function Trunc(x: real): (n: int)
    ensures x >= 0.0 ==> n as real <= x < n as real + 1.0
    ensures x <= 0.0 ==> n as real - 1.0 < x <= n as real
  {
    if x >= 0.0 then x.Floor else -((-x).Floor)
  }

  lemma SmallMultiple(d: int, k: int, x: int)
    requires d > 0 && d * k == x && -d < x < d
    ensures k == 0
  {
  }

  lemma FloorIs(a: int, q: int, d: int)
    requires d > 0 && d * q <= a < d * q + d
    ensures a / d == q
  {
    assert a == d * (a / d) + a % d;
    assert d * (q - a / d) == d * q - d * (a / d);
    SmallMultiple(d, q - a / d, a % d - (a - d * q));
  }

  lemma Negate(d: int, q: int)
    ensures d * -q == -(d * q) && d * (-q - 1) == -(d * q) - d
  {
  }

  lemma NonNegative(a: int, b: int)
    requires a >= 0 && b >= 0
    ensures a * b >= 0
  {
  }

  lemma MulSign(d: int, q: int)
    requires d > 0
    ensures q >= 0 ==> d * q >= 0
    ensures q < 0 ==> d * q <= -d
  {
    Negate(d, q);
    if q >= 0 { NonNegative(d, q); } else { NonNegative(d, -q - 1); }
  }

  /** Division toward zero of a dividend with floor quotient q. */
  lemma DivIs(a: int, q: int, d: int)
    requires d > 0 && d * q <= a < d * q + d
    ensures Div(a, d) == if q >= 0 || a == d * q then q else q + 1
  {
    MulSign(d, q);
    Negate(d, q);
    if q >= 0 { FloorIs(a, q, d); }
    else if a == d * q { FloorIs(-a, -q, d); }
    else { FloorIs(-a, -q - 1, d); }
  }

  lemma Distribute(x: real, k: real)
    ensures (x + 1.0) * k == x * k + k
  {
  }

  lemma CastProduct(a: int, b: int)
    ensures (a * b) as real == b as real * a as real
  {
  }

  lemma Scale(x: real, y: real, k: real)
    requires x <= y && k > 0.0
    ensures x * k <= y * k
  {
  }

  lemma ScaleStrict(x: real, y: real, k: real)
    requires x < y && k > 0.0
    ensures x * k < y * k
  {
  }

  lemma FloorOfRatio(x: real, n: int, d: int)
    requires d > 0 && x * d as real == n as real
    ensures d * x.Floor <= n < d * x.Floor + d
  {
    var t, D := x.Floor, d as real;
    var p := d * t;
    CastProduct(d, t);
    Scale(t as real, x, D);
    ScaleStrict(x, t as real + 1.0, D);
    Distribute(t as real, D);
    assert p as real <= n as real < p as real + D == (p + d) as real;
  }

  /** A truncated exact quotient is C's quotient of the integers. */
  lemma TruncIsDiv(x: real, n: int, d: int)
    requires d > 0 && x * d as real == n as real
    ensures Trunc(x) == Div(n, d)
  {
    if x >= 0.0 {
      FloorOfRatio(x, n, d);
      DivIs(n, x.Floor, d);
      MulSign(d, x.Floor);
    } else {
      FloorOfRatio(-x, -n, d);
      FloorIs(-n, (-x).Floor, d);
      Scale(x, 0.0, d as real);
      MulSign(d, (-x).Floor);
    }
  }
}
