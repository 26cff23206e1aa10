/** Real numbers: absolute value, minimum, maximum, and how products and quotients order. */
module Reals {
  function Min(x: real, y: real): real {
    if x <= y then x else y
  }

  function Max(x: real, y: real): real {
    if x >= y then x else y
  }

  function Abs(x: real): real {
    if x >= 0.0 then x else -x
  }

  lemma ProductNonNegative(x: real, y: real)
    requires x >= 0.0 && y >= 0.0
    ensures x * y >= 0.0
  {
  }

  lemma ProductPositive(x: real, y: real)
    requires x > 0.0 && y > 0.0
    ensures x * y > 0.0
  {
  }

  lemma Distributes(x: real, y: real, z: real)
    ensures (x - y) * z == x * z - y * z
    ensures z * (x - y) == z * x - z * y
  {
  }

  lemma ProductMonotone(a: real, b: real, c: real, d: real)
    requires 0.0 <= a <= c && 0.0 <= d <= b
    ensures a * d <= c * b
  {
    Distributes(c, a, b);
    Distributes(b, d, a);
    ProductNonNegative(c - a, b);
    ProductNonNegative(a, b - d);
  }

  lemma Regrouped(a: real, b: real, f: real, g: real)
    ensures (a * f) * (b * g) == (a * b) * (f * g)
  {
    assert (a * f) * (b * g) == a * (f * (b * g));
    assert f * (b * g) == b * (f * g);
  }

  /** Multiplying both sides by positive factors keeps the order of two products. */
  lemma ProductsScaled(a: real, b: real, c: real, d: real, f: real, g: real)
    requires f > 0.0 && g > 0.0
    ensures (a * f) * (b * g) <= (c * g) * (d * f) <==> a * b <= c * d
  {
    Regrouped(a, b, f, g);
    Regrouped(c, d, g, f);
    ProductPositive(f, g);
    ProductOrder(a * b, c * d, f * g);
  }

  /** Multiplying by a positive number keeps the order both ways. */
  lemma ProductOrder(x: real, y: real, z: real)
    requires z > 0.0
    ensures x * z > y * z <==> x > y
  {
    if x > y {
      Ordered(y, x, z);
    } else if x < y {
      Ordered(x, y, z);
    }
  }

  lemma Ordered(x: real, y: real, z: real)
    requires x < y && z > 0.0
    ensures x * z < y * z
  {
    Distributes(y, x, z);
    ProductPositive(y - x, z);
  }

  /** A quotient is a product with the inverse. */
  lemma QuotientIsProduct(x: real, y: real)
    requires y > 0.0
    ensures 1.0 / y > 0.0 && x / y == x * (1.0 / y) && (1.0 / y) * y == 1.0 == y * (1.0 / y)
  {
  }

  lemma QuotientPositive(x: real, y: real)
    requires x > 0.0 && y > 0.0
    ensures x / y > 0.0
  {
    QuotientIsProduct(x, y);
    ProductPositive(x, 1.0 / y);
  }

  lemma QuotientMonotone(x: real, y: real, total: real)
    requires x <= y && total > 0.0
    ensures x / total <= y / total
  {
    QuotientIsProduct(x, total);
    QuotientIsProduct(y, total);
    Distributes(y, x, 1.0 / total);
    ProductNonNegative(y - x, 1.0 / total);
  }

  /** Quotients are ordered as the products across. */
  lemma QuotientsAcross(x: real, s: real, y: real, t: real)
    requires s > 0.0 && t > 0.0 && x * t <= y * s
    ensures x / s <= y / t
  {
    var u, v := x / s, y / t;
    ProductPositive(s, t);
    ProductOrder(u, v, s * t);
    Cancelled(x, s, t);
    Cancelled(y, t, s);
    assert s * t == t * s;
  }

  lemma Cancelled(x: real, s: real, t: real)
    requires s > 0.0
    ensures (x / s) * (s * t) == x * t
  {
    var u := x / s;
    assert u * (s * t) == (u * s) * t;
  }

  lemma SumOfQuotients(a: real, b: real, c: real, s: real)
    requires s != 0.0
    ensures a / s + b / s + c / s == (a + b + c) / s
  {
  }
}
