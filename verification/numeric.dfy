/**
 Integer arithmetic the controller needs. Python evaluates the curve and the graph
 position in floating point and then applies `int()`, which truncates toward zero;
 the model evaluates the same quotients exactly and truncates explicitly.
 */
module Numeric {

  function Abs(x: int): nat
  {
    if x < 0 then -x else x
  }

  function Min(a: int, b: int): int
  {
    if a <= b then a else b
  }

  function Max(a: int, b: int): int
  {
    if a <= b then b else a
  }

  /** 1, -1 or 0 by the sign of `x`. */
  function Sign(x: int): int
  {
    if x > 0 then 1 else if x < 0 then -1 else 0
  }

  /** Python's `int(n / d)` on the exact rational `n / d`: the quotient rounded toward zero.
      (Dafny's `/` rounds toward negative infinity for a positive divisor, so it differs
      from this for a negative numerator.) The four cases pin the result down uniquely. */
  function TruncDiv(n: int, d: int): int
    requires d != 0
  {
    var m := Abs(n) / Abs(d);
    if (n < 0) == (d < 0) then m else -m
  }

  /** The four sign cases of the truncated quotient, which pin it down uniquely. */
  lemma TruncDivBounds(n: int, d: int)
    requires d != 0
    ensures var q := TruncDiv(n, d);
            && (d > 0 && n >= 0 ==> q * d <= n < q * d + d)
            && (d > 0 && n <= 0 ==> q * d - d < n <= q * d)
            && (d < 0 && n >= 0 ==> q * d <= n < q * d - d)
            && (d < 0 && n <= 0 ==> q * d + d < n <= q * d)
  {
    var a: int, b: int := Abs(n), Abs(d);
    var m: int := a / b;
    EuclidBounds(a, b);
    var q := TruncDiv(n, d);
    if d > 0 && n >= 0 {
      assert q * d == m * b;
    } else if d > 0 {
      NegMul(m, b);
      assert q * d == -(m * b);
    } else if n >= 0 {
      NegMul(m, b);
      assert q * d == (-m) * (-b);
    } else {
      NegMul(m, b);
      assert q * d == m * (-b);
    }
  }

  /** Dafny's `/` on a non-negative numerator and a positive divisor. */
  lemma EuclidBounds(a: int, b: int)
    requires 0 <= a && 0 < b
    ensures (a / b) * b <= a < (a / b) * b + b
  {
    assert a == (a / b) * b + a % b;
  }

  lemma NegMul(x: int, y: int)
    ensures (-x) * y == -(x * y) && x * (-y) == -(x * y) && (-x) * (-y) == x * y
  {
  }

  lemma MulMonotone(a: int, b: int, c: int)
    requires a <= b && 0 <= c
    ensures a * c <= b * c
  {
    assert b * c - a * c == (b - a) * c;
  }

  /** Cancelling a positive factor from a strict inequality between products. */
  lemma LessFromProducts(a: int, b: int, c: int)
    requires c > 0 && a * c < b * c
    ensures a < b
  {
    if a >= b {
      MulMonotone(b, a, c);
    }
  }

  /** Cancelling a positive factor from an equation between products. */
  lemma MulCancel(a: int, b: int, c: int)
    requires c > 0 && a * c == b * c
    ensures a == b
  {
    assert (a - b) * c == a * c - b * c;
  }

  /** A quotient whose numerator lies between `lo * d` and `hi * d` truncates into `[lo, hi]`. */
  lemma TruncDivBetween(n: int, d: int, lo: int, hi: int)
    requires d > 0
    requires lo * d <= n <= hi * d
    ensures lo <= TruncDiv(n, d) <= hi
  {
    var q := TruncDiv(n, d);
    TruncDivBounds(n, d);
    assert (q + 1) * d == q * d + d;
    assert (hi + 1) * d == hi * d + d;
    assert (q - 1) * d == q * d - d;
    if n >= 0 {
      LessFromProducts(lo, q + 1, d);
      LessFromProducts(q, hi + 1, d);
    } else {
      LessFromProducts(lo, q + 1, d);
      LessFromProducts(q - 1, hi, d);
    }
  }

  /** For a non-negative numerator, the quotient is the `q` with `q * d <= n < q * d + d`. */
  lemma TruncDivUnique(n: int, d: int, q: int)
    requires d > 0 && 0 <= n && q * d <= n < q * d + d
    ensures TruncDiv(n, d) == q
  {
    var r := TruncDiv(n, d);
    TruncDivBounds(n, d);
    assert (q + 1) * d == q * d + d;
    assert (r + 1) * d == r * d + d;
    LessFromProducts(r, q + 1, d);
    LessFromProducts(q, r + 1, d);
  }

  /** An exact multiple divides back to its factor. */
  lemma TruncDivExact(k: int, d: int)
    requires d > 0
    ensures TruncDiv(k * d, d) == k
  {
    TruncDivBetween(k * d, d, k, k);
  }
}
