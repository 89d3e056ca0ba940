/** The value of a coefficient, its sign, and what a line or a reversed ranking gives. */
module CorrelationValue {
  import opened Prelude
  import opened RealArith
  import opened Sequences
  import opened Ties
  import opened Ranks
  import opened Correlation

  // ---------------------------------------------------------------- the value

  /** The sum over all positions of the product of the two deviations from the mean. */
  function CoDeviation(xs: seq<real>, ys: seq<real>): real
    requires |xs| == |ys| > 0
  {
    Sum(seq(|xs|, i requires 0 <= i < |xs| =>
      Times(xs[i] - Sum(xs) / |xs| as real, ys[i] - Sum(ys) / |ys| as real)))
  }

  function Paired(dx: seq<real>, dy: seq<real>): (ps: seq<real>)
    requires |dx| == |dy|
    ensures |ps| == |dx| && forall i | 0 <= i < |ps| :: ps[i] == Times(dx[i], dy[i])
  {
    seq(|dx|, i requires 0 <= i < |dx| => Times(dx[i], dy[i]))
  }

  lemma {:induction false} DotIsSum(dx: seq<real>, dy: seq<real>)
    requires |dx| == |dy|
    ensures Dot(dx, dy) == Sum(Paired(dx, dy))
  {
    if dx != [] {
      var n := |dx| - 1;
      DotIsSum(dx[..n], dy[..n]);
      assert Paired(dx, dy)[..n] == Paired(dx[..n], dy[..n]);
    }
  }

  lemma CoDeviationIsDot(xs: seq<real>, ys: seq<real>)
    requires |xs| == |ys| > 0
    ensures CoDeviation(xs, ys) == Dot(Deviations(xs), Deviations(ys))
  {
    DotIsSum(Deviations(xs), Deviations(ys));
    var mx, my := Sum(xs) / |xs| as real, Sum(ys) / |ys| as real;
    assert mx == Average(xs) && my == Average(ys);
    PairedAt(xs, ys, mx, my, Deviations(xs), Deviations(ys));
  }

  lemma PairedAt(xs: seq<real>, ys: seq<real>, mx: real, my: real, dx: seq<real>, dy: seq<real>)
    requires |xs| == |ys| == |dx| == |dy|
    requires forall i | 0 <= i < |xs| :: dx[i] == xs[i] - mx && dy[i] == ys[i] - my
    ensures seq(|xs|, i requires 0 <= i < |xs| => Times(xs[i] - mx, ys[i] - my)) == Paired(dx, dy)
  {
  }

  lemma QuotientValue(n: real, d: real)
    requires d != 0.0
    ensures n / d * d == n
  {
  }

  lemma NormalisedValue(sqrt: real -> real, n: real, a: real, b: real)
    ensures var r := Normalised(sqrt, n, a, b);
            && (r == None <==> sqrt(a * b) == 0.0)
            && (r.Some? ==> r.value * sqrt(a * b) == n)
  {
    if sqrt(a * b) != 0.0 {
      QuotientValue(n, sqrt(a * b));
    }
  }

  lemma CoefficientValue(sqrt: real -> real, dx: seq<real>, dy: seq<real>, n: real, a: real, b: real)
    requires |dx| == |dy| && n == Dot(dx, dy) && a == Dot(dx, dx) && b == Dot(dy, dy) && Coefficient(sqrt, dx, dy).Some?
    ensures Times(Coefficient(sqrt, dx, dy).value, sqrt(Times(a, b))) == n
  {
    NormalisedValue(sqrt, n, a, b);
  }

  /** Pearson, times the root of the product of the two sums of squared deviations, is the sum of
      the products of the deviations. */
  lemma PearsonValue(sqrt: real -> real, xs: seq<real>, ys: seq<real>)
    requires IsSqrt(sqrt) && |xs| == |ys| && Pearson(sqrt, xs, ys).value.Some?
    ensures Times(Pearson(sqrt, xs, ys).value.value, sqrt(Times(CoDeviation(xs, xs), CoDeviation(ys, ys)))) == CoDeviation(xs, ys)
  {
    CoDeviationIsDot(xs, ys);
    CoDeviationIsDot(xs, xs);
    CoDeviationIsDot(ys, ys);
    CoefficientValue(sqrt, Deviations(xs), Deviations(ys), CoDeviation(xs, ys), CoDeviation(xs, xs), CoDeviation(ys, ys));
  }

  /** Spearman is the same of the ranks. */
  lemma SpearmanValue(sqrt: real -> real, xs: seq<real>, ys: seq<real>)
    requires IsSqrt(sqrt) && |xs| == |ys| && Spearman(sqrt, xs, ys).value.Some?
    ensures var rx, ry := TiedRanks(xs), TiedRanks(ys);
            Times(Spearman(sqrt, xs, ys).value.value, sqrt(Times(CoDeviation(rx, rx), CoDeviation(ry, ry)))) == CoDeviation(rx, ry)
  {
    var rx, ry := TiedRanks(xs), TiedRanks(ys);
    assert Spearman(sqrt, xs, ys) == Ok(Coefficient(sqrt, Deviations(rx), Deviations(ry)));
    CoDeviationIsDot(rx, ry);
    CoDeviationIsDot(rx, rx);
    CoDeviationIsDot(ry, ry);
    CoefficientValue(sqrt, Deviations(rx), Deviations(ry), CoDeviation(rx, ry), CoDeviation(rx, rx), CoDeviation(ry, ry));
  }

  // ---------------------------------------------------------------- a line through the values

  /** a * y + b for each value. */
  function Line(ys: seq<real>, a: real, b: real): (zs: seq<real>)
    ensures |zs| == |ys| && forall i | 0 <= i < |ys| :: zs[i] == Times(a, ys[i]) + b
  {
    seq(|ys|, i requires 0 <= i < |ys| => Times(a, ys[i]) + b)
  }

  lemma LineStep(a: real, b: real, total: real, y: real, n: real)
    ensures (Times(a, total) + Times(b, n)) + (Times(a, y) + b) == Times(a, total + y) + Times(b, n + 1.0)
  {
  }

  lemma {:induction false} SumLine(ys: seq<real>, a: real, b: real)
    ensures Sum(Line(ys, a, b)) == Times(a, Sum(ys)) + Times(b, |ys| as real)
  {
    if ys != [] {
      var n := |ys| - 1;
      var zs := Line(ys, a, b);
      SumLine(ys[..n], a, b);
      assert zs[..n] == Line(ys[..n], a, b);
      LineStep(a, b, Sum(ys[..n]), ys[n], n as real);
    }
  }

  lemma LineMean(a: real, b: real, total: real, n: real)
    requires n > 0.0
    ensures (Times(a, total) + Times(b, n)) / n == Times(a, total / n) + b
  {
    var mean := total / n;
    QuotientValue(total, n);
    assert (a * mean + b) * n == a * (mean * n) + b * n;
    DivideLe(a * total + b * n, a * mean + b, n);
  }

  lemma LineDifference(a: real, b: real, y: real, mean: real)
    ensures (Times(a, y) + b) - (Times(a, mean) + b) == Times(a, y - mean)
  {
  }

  function Scaled(xs: seq<real>, a: real): (zs: seq<real>)
    ensures |zs| == |xs| && forall i | 0 <= i < |xs| :: zs[i] == Times(a, xs[i])
  {
    seq(|xs|, i requires 0 <= i < |xs| => Times(a, xs[i]))
  }

  lemma LineAverage(ys: seq<real>, a: real, b: real)
    requires ys != []
    ensures Average(Line(ys, a, b)) == Times(a, Average(ys)) + b
  {
    SumLine(ys, a, b);
    LineMean(a, b, Sum(ys), |ys| as real);
  }

  lemma LineDeviations(ys: seq<real>, a: real, b: real)
    requires ys != []
    ensures Deviations(Line(ys, a, b)) == Scaled(Deviations(ys), a)
  {
    LineAverage(ys, a, b);
    var zs, mean := Line(ys, a, b), Average(ys);
    var dz, dy := Deviations(zs), Deviations(ys);
    forall i | 0 <= i < |ys| ensures dz[i] == Times(a, dy[i]) {
      LineDifference(a, b, ys[i], mean);
    }
  }

  lemma ScaleStep(a: real, d: real, x: real, y: real)
    ensures Times(a, d + Times(x, y)) == Times(a, d) + Times(x, Times(a, y))
  {
    assert x * (a * y) == a * (x * y);
  }

  lemma {:induction false} DotScaled(xs: seq<real>, ys: seq<real>, a: real)
    requires |xs| == |ys|
    ensures Dot(xs, Scaled(ys, a)) == Times(a, Dot(xs, ys))
  {
    if xs != [] {
      var n := |xs| - 1;
      var zs := Scaled(ys, a);
      DotScaled(xs[..n], ys[..n], a);
      assert zs[..n] == Scaled(ys[..n], a);
      ScaleStep(a, Dot(xs[..n], ys[..n]), xs[n], ys[n]);
    }
  }

  lemma DotScaledTwice(ys: seq<real>, a: real)
    ensures Dot(Scaled(ys, a), Scaled(ys, a)) == Times(a, Times(a, Dot(ys, ys)))
  {
    var zs := Scaled(ys, a);
    DotScaled(zs, ys, a);
    DotSymmetric(zs, ys);
    DotScaled(ys, ys, a);
    assert Dot(zs, ys) == Times(a, Dot(ys, ys));
  }

  lemma RootIs(sqrt: real -> real, s: real, r: real)
    requires IsSqrt(sqrt) && r >= 0.0 && s == r * r
    ensures sqrt(s) == r
  {
    RootOfSquare(sqrt, r);
  }

  /** The root of a product one side of which is scaled by a square. */
  lemma RootScaled(sqrt: real -> real, plain: real, scaled: real, a: real, size: real)
    requires IsSqrt(sqrt) && plain >= 0.0 && size >= 0.0 && size * size == a * a && scaled == (a * a) * plain
    ensures sqrt(scaled) == Times(size, sqrt(plain))
  {
    var root := sqrt(plain);
    NonNegativeProduct(size, root);
    assert (size * root) * (size * root) == (size * size) * (root * root);
    RootIs(sqrt, scaled, size * root);
  }

  lemma ScaledProduct(x: real, y: real, a: real)
    ensures x * Times(a, Times(a, y)) == (a * a) * (x * y)
  {
    assert x * (a * (a * y)) == (a * a) * (x * y);
  }

  lemma ScaledQuotient(n: real, d: real, m: real, e: real, a: real, size: real)
    requires d > 0.0 && size > 0.0 && (a == size || a == -size) && m == Times(a, n) && e == Times(size, d)
    ensures e > 0.0 && m / e == if a == size then n / d else -(n / d)
  {
    var q := n / d;
    PositiveProduct(size, d);
    QuotientValue(n, d);
    if a == size {
      assert q * (size * d) == size * (q * d);
      DivideLe(m, q, e);
    } else {
      assert (-q) * (size * d) == -(size * (q * d));
      DivideLe(m, -q, e);
    }
  }

  function Signed(r: Option<real>, a: real): Option<real> {
    match r case None => None case Some(v) => Some(if a > 0.0 then v else -v)
  }

  function Ratio(n: real, d: real): Option<real> {
    if d == 0.0 then None else Some(n / d)
  }

  lemma RootsScaled(sqrt: real -> real, x: real, y: real, a: real, z: real, size: real)
    requires IsSqrt(sqrt) && x >= 0.0 && y >= 0.0 && z == Times(a, Times(a, y)) && size == if a > 0.0 then a else -a
    ensures sqrt(x * y) >= 0.0 && sqrt(x * z) == Times(size, sqrt(x * y))
  {
    SizeSquared(a, size);
    NonNegativeProduct(x, y);
    ScaledProduct(x, y, a);
    RootScaled(sqrt, x * y, x * z, a, size);
  }

  lemma RatioSigned(n: real, d: real, m: real, e: real, a: real, size: real)
    requires d >= 0.0 && a != 0.0 && size == (if a > 0.0 then a else -a) && m == Times(a, n) && e == Times(size, d)
    ensures Ratio(m, e) == Signed(Ratio(n, d), a)
  {
    SignedRatio(n, d, m, e, a, size);
  }

  lemma NormalisedScaled(sqrt: real -> real, n: real, x: real, y: real, a: real, m: real, z: real)
    requires IsSqrt(sqrt) && x >= 0.0 && y >= 0.0 && a != 0.0 && m == Times(a, n) && z == Times(a, Times(a, y))
    ensures Normalised(sqrt, m, x, z) == Signed(Normalised(sqrt, n, x, y), a)
  {
    var size := if a > 0.0 then a else -a;
    RootsScaled(sqrt, x, y, a, z, size);
    RatioSigned(n, sqrt(x * y), m, sqrt(x * z), a, size);
    NormalisedIsRatio(sqrt, n, x, y);
    NormalisedIsRatio(sqrt, m, x, z);
  }

  lemma NormalisedIsRatio(sqrt: real -> real, n: real, x: real, y: real)
    ensures Normalised(sqrt, n, x, y) == Ratio(n, sqrt(x * y))
  {
  }

  lemma SizeSquared(a: real, size: real)
    requires size == if a > 0.0 then a else -a
    ensures size * size == a * a
  {
  }

  lemma SignedRatio(n: real, d: real, m: real, e: real, a: real, size: real)
    requires d >= 0.0 && a != 0.0 && size == (if a > 0.0 then a else -a) && m == Times(a, n) && e == Times(size, d)
    ensures e == 0.0 <==> d == 0.0
    ensures d != 0.0 ==> m / e == if a > 0.0 then n / d else -(n / d)
  {
    NonNegativeProduct(size, d);
    if d > 0.0 {
      ScaledQuotient(n, d, m, e, a, size);
    }
  }

  lemma CoefficientOfScaled(sqrt: real -> real, dx: seq<real>, dy: seq<real>, a: real)
    requires IsSqrt(sqrt) && |dx| == |dy| && a != 0.0
    ensures Coefficient(sqrt, dx, Scaled(dy, a)) == Signed(Coefficient(sqrt, dx, dy), a)
  {
    DotScaled(dx, dy, a);
    DotScaledTwice(dy, a);
    SquaresNonNegative(dx);
    SquaresNonNegative(dy);
    NormalisedScaled(sqrt, Dot(dx, dy), Dot(dx, dx), Dot(dy, dy), a, Dot(dx, Scaled(dy, a)), Dot(Scaled(dy, a), Scaled(dy, a)));
  }

  lemma CoefficientOfLine(sqrt: real -> real, xs: seq<real>, ys: seq<real>, a: real, b: real)
    requires IsSqrt(sqrt) && |xs| == |ys| && xs != [] && a != 0.0
    ensures Coefficient(sqrt, Deviations(xs), Deviations(Line(ys, a, b)))
         == Signed(Coefficient(sqrt, Deviations(xs), Deviations(ys)), a)
  {
    LineDeviations(ys, a, b);
    CoefficientOfScaled(sqrt, Deviations(xs), Deviations(ys), a);
  }

  lemma LineDistinguishes(a: real, b: real, y: real, z: real)
    requires a != 0.0
    ensures Times(a, y) + b == Times(a, z) + b <==> y == z
  {
    if y != z {
      NonZeroProduct(a, y - z);
      assert a * (y - z) == a * y - a * z;
    }
  }

  lemma LineConstant(ys: seq<real>, a: real, b: real)
    requires a != 0.0
    ensures Constant(Line(ys, a, b)) <==> Constant(ys)
  {
    forall i | 0 <= i < |ys| ensures Line(ys, a, b)[i] == Line(ys, a, b)[0] <==> ys[i] == ys[0] {
      LineDistinguishes(a, b, ys[i], ys[0]);
    }
  }

  function SignedResult(r: Result<Option<real>, ValueError>, a: real): Result<Option<real>, ValueError> {
    match r case Err(e) => Err(e) case Ok(v) => Ok(Signed(v, a))
  }

  /** Replacing a side by a line through it keeps Pearson if the line rises and negates it if it
      falls. */
  lemma PearsonOfLine(sqrt: real -> real, xs: seq<real>, ys: seq<real>, a: real, b: real)
    requires IsSqrt(sqrt) && |xs| == |ys| && a != 0.0
    ensures Pearson(sqrt, xs, Line(ys, a, b)) == SignedResult(Pearson(sqrt, xs, ys), a)
  {
    if |xs| >= 2 {
      LineConstant(ys, a, b);
      CoefficientOfLine(sqrt, xs, ys, a, b);
    }
  }

  lemma CoefficientWithSelf(sqrt: real -> real, xs: seq<real>)
    requires IsSqrt(sqrt) && xs != [] && !Constant(xs)
    ensures Coefficient(sqrt, Deviations(xs), Deviations(xs)) == Some(1.0)
  {
    DeviationsVanish(xs);
    SquaresNonNegative(Deviations(xs));
    NormalisedSelf(sqrt, Dot(Deviations(xs), Deviations(xs)));
  }

  /** So a rising line correlates at exactly 1 with what it is drawn through, a falling one at -1. */
  lemma PearsonPerfect(sqrt: real -> real, xs: seq<real>, a: real, b: real)
    requires IsSqrt(sqrt) && |xs| >= 2 && !Constant(xs) && a != 0.0
    ensures Pearson(sqrt, xs, Line(xs, a, b)) == Ok(Some(if a > 0.0 then 1.0 else -1.0))
  {
    CoefficientWithSelf(sqrt, xs);
    PearsonOfLine(sqrt, xs, xs, a, b);
  }

  // ---------------------------------------------------------------- rankings turned round

  /** The two sides order their positions oppositely; ties are ties on both. */
  ghost predicate OppositeOrder(xs: seq<real>, ys: seq<real>) {
    |xs| == |ys| && forall i, j | 0 <= i < |xs| && 0 <= j < |xs| :: xs[i] < xs[j] <==> ys[j] < ys[i]
  }

  lemma {:induction false} OppositeCounts(xs: seq<real>, ys: seq<real>, x: real, y: real)
    requires |xs| == |ys|
    requires forall i | 0 <= i < |xs| :: (xs[i] < x <==> y < ys[i]) && (x < xs[i] <==> ys[i] < y)
    ensures Less(xs, x) + Less(ys, y) + Equal(xs, x) == |xs| && Equal(ys, y) == Equal(xs, x)
  {
    if xs != [] {
      OppositeCounts(xs[..|xs| - 1], ys[..|ys| - 1], x, y);
    }
  }

  /** Turning the order round turns the ranks round. */
  lemma OppositeRanks(xs: seq<real>, ys: seq<real>)
    requires OppositeOrder(xs, ys)
    ensures TiedRanks(ys) == Line(TiedRanks(xs), -1.0, (|xs| + 1) as real)
  {
    forall i | 0 <= i < |xs| ensures TiedRanks(ys)[i] == -1.0 * TiedRanks(xs)[i] + (|xs| + 1) as real {
      OppositeCounts(xs, ys, xs[i], ys[i]);
    }
  }

  /** Turning one side's order round negates Spearman. */
  lemma SpearmanReversed(sqrt: real -> real, xs: seq<real>, ys: seq<real>, ys': seq<real>)
    requires IsSqrt(sqrt) && |xs| == |ys| && OppositeOrder(ys, ys')
    ensures Spearman(sqrt, xs, ys') == SignedResult(Spearman(sqrt, xs, ys), -1.0)
  {
    OppositeRanks(ys, ys');
    if |xs| >= 2 {
      CoefficientOfLine(sqrt, TiedRanks(xs), TiedRanks(ys), -1.0, (|ys| + 1) as real);
    }
  }

  /** A marker who orders the answers as another does scores 1, and one who orders them
      backwards -1, ties and all. */
  lemma SpearmanPerfect(sqrt: real -> real, xs: seq<real>, ys: seq<real>)
    requires IsSqrt(sqrt) && |xs| >= 2 && !Constant(xs)
    ensures SameOrder(xs, ys) ==> Spearman(sqrt, xs, ys) == Ok(Some(1.0))
    ensures OppositeOrder(xs, ys) ==> Spearman(sqrt, xs, ys) == Ok(Some(-1.0))
  {
    RanksConstant(xs);
    CoefficientWithSelf(sqrt, TiedRanks(xs));
    if SameOrder(xs, ys) {
      RanksOnlySeeOrder(xs, ys);
    }
    if OppositeOrder(xs, ys) {
      SpearmanReversed(sqrt, xs, xs, ys);
    }
  }

  // ---------------------------------------------------------------- the mean absolute error

  function Abs(x: real): real {
    if x >= 0.0 then x else -x
  }

  /** The error, times the number of items, grows by the distance between the two marks with
      every item: it is the mean of the distances. */
  lemma ErrorGrows(xs: seq<real>, ys: seq<real>, x: real, y: real)
    requires |xs| == |ys| > 0
    ensures var before, after := MeanAbsoluteError(xs, ys), MeanAbsoluteError(xs + [x], ys + [y]);
            && before.Ok? && before.value.Some? && after.Ok? && after.value.Some?
            && after.value.value * (|xs| + 1) as real == before.value.value * |xs| as real + Abs(x - y)
  {
    var ds := Distances(xs + [x], ys + [y]);
    assert ds[..|xs|] == Distances(xs, ys);
    assert ds[|xs|] == Abs(x - y);
    QuotientValue(Sum(Distances(xs, ys)), |xs| as real);
    QuotientValue(Sum(ds), (|xs| + 1) as real);
  }

  lemma ErrorOfOne(x: real, y: real)
    ensures MeanAbsoluteError([x], [y]) == Ok(Some(Abs(x - y)))
    ensures MeanAbsoluteError([], []) == Ok(None)
  {
    var ds := Distances([x], [y]);
    assert ds[..0] == [] && Sum(ds) == ds[0] == Abs(x - y);
    DivideLe(Sum(ds), Abs(x - y), 1.0);
  }

  /** Lists of different length are refused, and nothing else is. */
  lemma RefusedExactly(sqrt: real -> real, xs: seq<real>, ys: seq<real>)
    ensures Pearson(sqrt, xs, ys) == Err(LengthMismatch) <==> |xs| != |ys|
    ensures Spearman(sqrt, xs, ys) == Err(LengthMismatch) <==> |xs| != |ys|
    ensures MeanAbsoluteError(xs, ys) == Err(LengthMismatch) <==> |xs| != |ys|
  {
  }
}
