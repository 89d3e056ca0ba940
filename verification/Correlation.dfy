/** Pearson and Spearman coefficients and the mean absolute error, over exact reals.

    The square root is a parameter: any function that squares back on the non-negative reals. */
module Correlation {
  import opened Prelude
  import opened RealArith
  import opened Sequences
  import opened Ranks

  datatype ValueError = LengthMismatch

  ghost predicate IsSqrt(sqrt: real -> real) {
    forall x | x >= 0.0 :: sqrt(x) >= 0.0 && sqrt(x) * sqrt(x) == x
  }

  // ---------------------------------------------------------------- inner products

  function Dot(xs: seq<real>, ys: seq<real>): real
    requires |xs| == |ys|
  {
    if xs == [] then 0.0
    else Dot(xs[..|xs| - 1], ys[..|ys| - 1]) + Times(xs[|xs| - 1], ys[|ys| - 1])
  }

  /** xs - t * ys, position by position. */
  function Combine(xs: seq<real>, t: real, ys: seq<real>): (zs: seq<real>)
    requires |xs| == |ys|
    ensures |zs| == |xs| && forall i | 0 <= i < |xs| :: zs[i] == xs[i] - t * ys[i]
  {
    seq(|xs|, i requires 0 <= i < |xs| => xs[i] - t * ys[i])
  }

  lemma {:induction false} DotSymmetric(xs: seq<real>, ys: seq<real>)
    requires |xs| == |ys|
    ensures Dot(xs, ys) == Dot(ys, xs)
  {
    if xs != [] {
      DotSymmetric(xs[..|xs| - 1], ys[..|ys| - 1]);
    }
  }

  lemma {:induction false} SquaresNonNegative(xs: seq<real>)
    ensures Dot(xs, xs) >= 0.0
    ensures Dot(xs, xs) == 0.0 <==> forall i | 0 <= i < |xs| :: xs[i] == 0.0
  {
    if xs != [] {
      var init, last := xs[..|xs| - 1], xs[|xs| - 1];
      SquaresNonNegative(init);
      Square(last);
      assert forall i | 0 <= i < |init| :: init[i] == xs[i];
    }
  }

  /** z = a - 2tc + t^2 b */
  ghost predicate Expands(z: real, a: real, t: real, c: real, b: real) {
    z == a - 2.0 * t * c + t * t * b
  }

  lemma ExpandsStep(z: real, a: real, t: real, c: real, b: real, x: real, y: real, d: real)
    requires Expands(z, a, t, c, b) && d == x - t * y
    ensures Expands(z + Times(d, d), a + Times(x, x), t, c + Times(x, y), b + Times(y, y))
  {
    var u, p, q := t * y, x * y, y * y;
    assert d * d == x * x - 2.0 * (x * u) + u * u;
    assert x * u == t * p && u * u == t * t * q;
    assert 2.0 * t * (c + p) == 2.0 * t * c + 2.0 * (t * p);
    assert t * t * (b + q) == t * t * b + t * t * q;
  }

  lemma {:induction false} CombineSquared(xs: seq<real>, t: real, ys: seq<real>)
    requires |xs| == |ys|
    ensures Expands(Dot(Combine(xs, t, ys), Combine(xs, t, ys)), Dot(xs, xs), t, Dot(xs, ys), Dot(ys, ys))
  {
    if xs != [] {
      var n := |xs| - 1;
      CombineSquared(xs[..n], t, ys[..n]);
      CombineInit(xs, t, ys);
      var zs := Combine(xs[..n], t, ys[..n]);
      ExpandsStep(Dot(zs, zs), Dot(xs[..n], xs[..n]), t, Dot(xs[..n], ys[..n]), Dot(ys[..n], ys[..n]),
                  xs[n], ys[n], Combine(xs, t, ys)[n]);
    }
  }

  lemma CombineInit(xs: seq<real>, t: real, ys: seq<real>)
    requires |xs| == |ys| && xs != []
    ensures var n := |xs| - 1; Combine(xs, t, ys)[..n] == Combine(xs[..n], t, ys[..n])
  {
    var n := |xs| - 1;
    var a, b := Combine(xs, t, ys)[..n], Combine(xs[..n], t, ys[..n]);
    assert |a| == |b|;
    forall i | 0 <= i < n ensures a[i] == b[i] {
      assert xs[..n][i] == xs[i] && ys[..n][i] == ys[i];
    }
  }

  /** c^2 <= a b */
  ghost predicate BoundedBy(c: real, a: real, b: real) {
    c * c <= a * b
  }

  /** From a - 2tc + t^2 b >= 0 at t = c / b. */
  lemma Discriminant(z: real, a: real, t: real, c: real, b: real)
    requires b > 0.0 && t == c / b && z >= 0.0 && Expands(z, a, t, c, b)
    ensures BoundedBy(c, a, b)
  {
    assert t * b == c;
    assert t * t * b == t * c;
    assert 2.0 * t * c == 2.0 * (t * c);
    NonNegativeProduct(a - t * c, b);
    assert (a - t * c) * b == a * b - (t * b) * c;
  }

  lemma {:induction false} DotWithZero(xs: seq<real>, ys: seq<real>)
    requires |xs| == |ys| && forall i | 0 <= i < |ys| :: ys[i] == 0.0
    ensures Dot(xs, ys) == 0.0
  {
    if xs != [] {
      DotWithZero(xs[..|xs| - 1], ys[..|ys| - 1]);
    }
  }

  /** Cauchy-Schwarz. */
  lemma CauchySchwarz(xs: seq<real>, ys: seq<real>)
    requires |xs| == |ys|
    ensures BoundedBy(Dot(xs, ys), Dot(xs, xs), Dot(ys, ys))
  {
    SquaresNonNegative(ys);
    if Dot(ys, ys) == 0.0 {
      DotWithZero(xs, ys);
    } else {
      var t := Dot(xs, ys) / Dot(ys, ys);
      var zs := Combine(xs, t, ys);
      CombineSquared(xs, t, ys);
      SquaresNonNegative(zs);
      Discriminant(Dot(zs, zs), Dot(xs, xs), t, Dot(xs, ys), Dot(ys, ys));
    }
  }

  // ---------------------------------------------------------------- square roots

  lemma RootOfSquare(sqrt: real -> real, a: real)
    requires IsSqrt(sqrt) && a >= 0.0
    ensures sqrt(a * a) == a
  {
    Square(a);
    var s := sqrt(a * a);
    SquaresOrdered(s, a);
    SquaresOrdered(a, s);
  }

  lemma RootZero(sqrt: real -> real, x: real)
    requires IsSqrt(sqrt) && x >= 0.0
    ensures sqrt(x) >= 0.0 && (sqrt(x) == 0.0 <==> x == 0.0)
  {
    Square(sqrt(x));
  }

  lemma RootBounds(sqrt: real -> real, num: real, square: real)
    requires IsSqrt(sqrt) && square > 0.0 && num * num <= square
    ensures sqrt(square) > 0.0 && -1.0 <= num / sqrt(square) <= 1.0
  {
    var d := sqrt(square);
    RootZero(sqrt, square);
    SquaresOrdered(num, d);
    DivideLe(num, 1.0, d);
    DivideLe(num, -1.0, d);
  }

  // ---------------------------------------------------------------- the coefficients

  function Deviations(xs: seq<real>): (dx: seq<real>)
    requires xs != []
    ensures |dx| == |xs| && forall i | 0 <= i < |xs| :: dx[i] == xs[i] - Average(xs)
  {
    seq(|xs|, i requires 0 <= i < |xs| => xs[i] - Average(xs))
  }

  /** numerator / sqrt(a * b), or None when the denominator is zero. */
  function Normalised(sqrt: real -> real, numerator: real, a: real, b: real): Option<real> {
    var denominator := sqrt(a * b);
    if denominator == 0.0 then None else Some(numerator / denominator)
  }

  function Coefficient(sqrt: real -> real, dx: seq<real>, dy: seq<real>): Option<real>
    requires |dx| == |dy|
  {
    Normalised(sqrt, Dot(dx, dy), Dot(dx, dx), Dot(dy, dy))
  }

  function Spearman(sqrt: real -> real, xs: seq<real>, ys: seq<real>): Result<Option<real>, ValueError> {
    if |xs| != |ys| then Err(LengthMismatch)
    else if |xs| < 2 then Ok(None)
    else Ok(Coefficient(sqrt, Deviations(TiedRanks(xs)), Deviations(TiedRanks(ys))))
  }

  predicate Constant(xs: seq<real>) {
    forall i | 0 <= i < |xs| :: xs[i] == xs[0]
  }

  /** The values are checked for constancy before the denominator is. */
  function Pearson(sqrt: real -> real, xs: seq<real>, ys: seq<real>): Result<Option<real>, ValueError> {
    if |xs| != |ys| then Err(LengthMismatch)
    else if |xs| < 2 then Ok(None)
    else if Constant(xs) || Constant(ys) then Ok(None)
    else Ok(Coefficient(sqrt, Deviations(xs), Deviations(ys)))
  }

  function Distances(xs: seq<real>, ys: seq<real>): (ds: seq<real>)
    requires |xs| == |ys|
    ensures |ds| == |xs|
  {
    seq(|xs|, i requires 0 <= i < |xs| => if xs[i] >= ys[i] then xs[i] - ys[i] else ys[i] - xs[i])
  }

  function MeanAbsoluteError(xs: seq<real>, ys: seq<real>): Result<Option<real>, ValueError> {
    if |xs| != |ys| then Err(LengthMismatch)
    else if xs == [] then Ok(None)
    else Ok(Some(Sum(Distances(xs, ys)) / |xs| as real))
  }

  // ---------------------------------------------------------------- range, None, symmetry

  lemma DeviationsVanish(xs: seq<real>)
    requires xs != []
    ensures Dot(Deviations(xs), Deviations(xs)) == 0.0 <==> Constant(xs)
  {
    SquaresNonNegative(Deviations(xs));
    if Constant(xs) {
      SumConstant(xs, xs[0]);
      DivideLe(Sum(xs), xs[0], |xs| as real);
    } else {
      var i :| 0 <= i < |xs| && xs[i] != xs[0];
      assert Deviations(xs)[i] != Deviations(xs)[0];
    }
  }

  lemma NormalisedRange(sqrt: real -> real, numerator: real, a: real, b: real)
    requires IsSqrt(sqrt) && a >= 0.0 && b >= 0.0 && BoundedBy(numerator, a, b)
    ensures var r := Normalised(sqrt, numerator, a, b);
            && (r.None? <==> a == 0.0 || b == 0.0)
            && (r.Some? ==> -1.0 <= r.value <= 1.0)
  {
    NonNegativeProduct(a, b);
    RootZero(sqrt, a * b);
    if a * b > 0.0 {
      RootBounds(sqrt, numerator, a * b);
    }
  }

  lemma NormalisedSymmetric(sqrt: real -> real, numerator: real, a: real, b: real)
    ensures Normalised(sqrt, numerator, a, b) == Normalised(sqrt, numerator, b, a)
  {
    assert a * b == b * a;
  }

  lemma NormalisedSelf(sqrt: real -> real, a: real)
    requires IsSqrt(sqrt) && a > 0.0
    ensures Normalised(sqrt, a, a, a) == Some(1.0)
  {
    RootOfSquare(sqrt, a);
    DivideLe(a, 1.0, a);
  }

  lemma CoefficientSound(sqrt: real -> real, xs: seq<real>, ys: seq<real>)
    requires IsSqrt(sqrt) && |xs| == |ys| && xs != []
    ensures var r := Coefficient(sqrt, Deviations(xs), Deviations(ys));
            && (r.None? <==> Constant(xs) || Constant(ys))
            && (r.Some? ==> -1.0 <= r.value <= 1.0)
            && r == Coefficient(sqrt, Deviations(ys), Deviations(xs))
  {
    DeviationsVanish(xs);
    DeviationsVanish(ys);
    var dx, dy := Deviations(xs), Deviations(ys);
    SquaresNonNegative(dx);
    SquaresNonNegative(dy);
    CauchySchwarz(dx, dy);
    DotSymmetric(dx, dy);
    NormalisedRange(sqrt, Dot(dx, dy), Dot(dx, dx), Dot(dy, dy));
    NormalisedSymmetric(sqrt, Dot(dx, dy), Dot(dx, dx), Dot(dy, dy));
  }

  /** Pearson is symmetric, lies in [-1, 1], and (from two items on) is None exactly when a
      side is constant; the test on the denominator never decides. */
  lemma PearsonSound(sqrt: real -> real, xs: seq<real>, ys: seq<real>)
    requires IsSqrt(sqrt) && |xs| == |ys|
    ensures var r := Pearson(sqrt, xs, ys);
            && r == Pearson(sqrt, ys, xs)
            && r.Ok?
            && (r.value.None? <==> |xs| < 2 || Constant(xs) || Constant(ys))
            && (r.value.Some? ==> -1.0 <= r.value.value <= 1.0)
  {
    if |xs| >= 2 {
      CoefficientSound(sqrt, xs, ys);
    }
  }

  lemma RanksConstant(xs: seq<real>)
    ensures Constant(TiedRanks(xs)) <==> Constant(xs)
  {
    forall i | 0 <= i < |xs| ensures TiedRanks(xs)[i] == TiedRanks(xs)[0] <==> xs[i] == xs[0] {
      RanksFollowValues(xs, i, 0);
    }
  }

  lemma SpearmanSound(sqrt: real -> real, xs: seq<real>, ys: seq<real>)
    requires IsSqrt(sqrt) && |xs| == |ys|
    ensures var r := Spearman(sqrt, xs, ys);
            && r == Spearman(sqrt, ys, xs)
            && r.Ok?
            && (r.value.None? <==> |xs| < 2 || Constant(xs) || Constant(ys))
            && (r.value.Some? ==> -1.0 <= r.value.value <= 1.0)
  {
    if |xs| >= 2 {
      RanksConstant(xs);
      RanksConstant(ys);
      CoefficientSound(sqrt, TiedRanks(xs), TiedRanks(ys));
    }
  }

  /** Only the order of each side matters to Spearman, so any strictly increasing transform of
      a side leaves it unchanged. */
  lemma SpearmanSeesOrderOnly(sqrt: real -> real, xs: seq<real>, xs': seq<real>, ys: seq<real>)
    requires SameOrder(xs, xs')
    ensures Spearman(sqrt, xs', ys) == Spearman(sqrt, xs, ys)
    ensures Spearman(sqrt, ys, xs') == Spearman(sqrt, ys, xs)
  {
    RanksOnlySeeOrder(xs, xs');
  }

  lemma IncreasingKeepsOrder(f: real -> real, xs: seq<real>)
    requires forall a, b | a < b :: f(a) < f(b)
    ensures SameOrder(xs, Map(f, xs))
  {
    forall i, j | 0 <= i < |xs| && 0 <= j < |xs| ensures xs[i] < xs[j] <==> Map(f, xs)[i] < Map(f, xs)[j] {
      if xs[i] < xs[j] {
        assert f(xs[i]) < f(xs[j]);
      } else if xs[j] < xs[i] {
        assert f(xs[j]) < f(xs[i]);
      }
    }
  }

  // ---------------------------------------------------------------- correlation is not agreement

  /** Each value less the constant `c`. */
  function Shifted(xs: seq<real>, c: real): (ys: seq<real>)
    ensures |ys| == |xs| && forall i | 0 <= i < |xs| :: ys[i] == xs[i] - c
  {
    seq(|xs|, i requires 0 <= i < |xs| => xs[i] - c)
  }

  lemma {:induction false} SumShifted(xs: seq<real>, c: real)
    ensures Sum(Shifted(xs, c)) == Sum(xs) - c * |xs| as real
  {
    if xs != [] {
      var n := |xs| - 1;
      SumShifted(xs[..n], c);
      assert Shifted(xs, c)[..n] == Shifted(xs[..n], c);
      assert c * |xs| as real == c * n as real + c;
    }
  }

  lemma ShiftedDeviations(xs: seq<real>, c: real)
    requires xs != []
    ensures Deviations(Shifted(xs, c)) == Deviations(xs)
  {
    SumShifted(xs, c);
    MeanShifts(Sum(xs), c, |xs| as real);
  }

  lemma MeanShifts(total: real, c: real, n: real)
    requires n > 0.0
    ensures (total - c * n) / n == total / n - c
  {
    var mean := total / n;
    DivideLe(total, mean, n);
    assert (mean - c) * n == total - c * n;
    DivideLe(total - c * n, mean - c, n);
  }

  lemma ShiftedConstant(xs: seq<real>, c: real)
    ensures Constant(Shifted(xs, c)) <==> Constant(xs)
  {
    forall i | 0 <= i < |xs| ensures Shifted(xs, c)[i] == Shifted(xs, c)[0] <==> xs[i] == xs[0] {
    }
  }

  /** A marker who is wrong by the same amount about every answer correlates perfectly, and
      the mean absolute error is exactly that amount. */
  lemma BiasedMarkerCorrelatesPerfectly(sqrt: real -> real, xs: seq<real>, c: real)
    requires IsSqrt(sqrt) && |xs| >= 2 && !Constant(xs)
    ensures Pearson(sqrt, xs, Shifted(xs, c)) == Ok(Some(1.0))
    ensures MeanAbsoluteError(xs, Shifted(xs, c)) == Ok(Some(if c >= 0.0 then c else -c))
  {
    ShiftedConstant(xs, c);
    ShiftedDeviations(xs, c);
    DeviationsVanish(xs);
    SquaresNonNegative(Deviations(xs));
    NormalisedSelf(sqrt, Dot(Deviations(xs), Deviations(xs)));
    ShiftedDistances(xs, c);
  }

  lemma ShiftedDistances(xs: seq<real>, c: real)
    requires xs != []
    ensures MeanAbsoluteError(xs, Shifted(xs, c)) == Ok(Some(if c >= 0.0 then c else -c))
  {
    var size := if c >= 0.0 then c else -c;
    var total := Sum(Distances(xs, Shifted(xs, c)));
    SumConstant(Distances(xs, Shifted(xs, c)), size);
    DivideLe(total, size, |xs| as real);
  }

  /** The error is never negative, and zero exactly when the two sides agree everywhere. */
  lemma ErrorZeroExactly(xs: seq<real>, ys: seq<real>)
    requires |xs| == |ys| && xs != []
    ensures MeanAbsoluteError(xs, ys).value.value >= 0.0
    ensures MeanAbsoluteError(xs, ys) == Ok(Some(0.0)) <==> xs == ys
  {
    var ds := Distances(xs, ys);
    DistancesVanish(ds);
    DivideLe(Sum(ds), 0.0, |xs| as real);
    if forall i | 0 <= i < |ds| :: ds[i] == 0.0 {
      forall i | 0 <= i < |xs| ensures xs[i] == ys[i] {
        assert ds[i] == 0.0;
      }
    }
  }

  lemma {:induction false} DistancesVanish(ds: seq<real>)
    requires forall i | 0 <= i < |ds| :: ds[i] >= 0.0
    ensures Sum(ds) >= 0.0
    ensures Sum(ds) == 0.0 <==> forall i | 0 <= i < |ds| :: ds[i] == 0.0
  {
    if ds != [] {
      var init := ds[..|ds| - 1];
      DistancesVanish(init);
      assert forall i | 0 <= i < |init| :: init[i] == ds[i];
    }
  }
}
