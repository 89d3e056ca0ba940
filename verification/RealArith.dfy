/** Signs of products of reals. */
module RealArith {

  lemma PositiveProduct(a: real, b: real)
    requires a > 0.0 && b > 0.0
    ensures a * b > 0.0
  {
  }

  lemma NonZeroProduct(a: real, b: real)
    requires a != 0.0 && b != 0.0
    ensures a * b != 0.0
  {
    if a > 0.0 && b > 0.0 {
      PositiveProduct(a, b);
    } else if a > 0.0 {
      PositiveProduct(a, -b);
    } else if b > 0.0 {
      PositiveProduct(-a, b);
    } else {
      PositiveProduct(-a, -b);
    }
  }

  lemma NonNegativeProduct(a: real, b: real)
    requires a >= 0.0 && b >= 0.0
    ensures a * b >= 0.0
    ensures a * b == 0.0 <==> a == 0.0 || b == 0.0
  {
    if a != 0.0 && b != 0.0 {
      PositiveProduct(a, b);
    }
  }

  lemma Square(a: real)
    ensures a * a >= 0.0
    ensures a * a == 0.0 <==> a == 0.0
  {
    if a != 0.0 {
      NonZeroProduct(a, a);
    }
    if a >= 0.0 {
      NonNegativeProduct(a, a);
    } else {
      NonNegativeProduct(-a, -a);
    }
  }

  /** Scaling both sides of a comparison by a non-negative factor. */
  lemma ScaleLe(a: real, b: real, c: real)
    requires a <= b && c >= 0.0
    ensures a * c <= b * c
  {
    NonNegativeProduct(b - a, c);
    assert (b - a) * c == b * c - a * c;
  }

  lemma SquaresOrdered(a: real, b: real)
    requires b >= 0.0 && a * a <= b * b
    ensures -b <= a <= b
  {
    assert (a - b) * (a + b) == a * a - b * b;
    assert (-a - b) * (-a + b) == a * a - b * b;
    if a > b {
      PositiveProduct(a - b, a + b);
    } else if a < -b {
      PositiveProduct(-a - b, -a + b);
    }
  }

  lemma DivideLe(a: real, b: real, d: real)
    requires d > 0.0
    ensures a <= b * d <==> a / d <= b
    ensures a == b * d <==> a / d == b
    ensures a >= b * d <==> a / d >= b
  {
    var q := a / d;
    assert q * d == a;
    if q < b {
      PositiveProduct(b - q, d);
      assert (b - q) * d == b * d - a;
    } else if q > b {
      PositiveProduct(q - b, d);
      assert (q - b) * d == a - b * d;
    }
  }

  /** Multiplication under a name, so that equal factors are seen to give equal products. */
  function Times(x: real, y: real): real {
    x * y
  }

  lemma TimesSign(x: real, y: real)
    requires x >= 0.0 && y >= 0.0
    ensures Times(x, y) >= 0.0 && (Times(x, y) == 0.0 <==> x == 0.0 || y == 0.0)
  {
    NonNegativeProduct(x, y);
  }
}
