/** Exactly which pools keep every NDCG measured against them in [0, 1]. */
module NdcgRange {
  import opened Prelude
  import opened RealArith
  import opened Ndcg

  ghost predicate InUnit(r: Result<Option<real>, ValueError>) {
    r.Ok? && (r.value.Some? ==> 0.0 <= r.value.value <= 1.0)
  }

  /** Whatever part of the pool is ranked, in whatever order, and wherever it is cut off. */
  ghost predicate AlwaysInUnit(log2: nat -> real, pool: seq<int>)
    requires IsLog(log2)
  {
    forall labels: seq<int>, k: int | k > 0 && multiset(labels) <= multiset(pool) ::
      InUnit(NdcgAtK(log2, labels, k, Some(pool)))
  }

  ghost predicate AllAlike(labels: seq<int>) {
    forall i | 0 <= i < |labels| :: labels[i] == labels[0]
  }

  lemma NegativeGain(grade: int)
    requires grade < 0
    ensures Gain(grade) < 0.0
  {
    GainIncreasing(grade, 0);
  }

  // ---------------------------------------------------------------- quotients of negatives

  lemma NegativeQuotient(n: real, d: real)
    requires d < 0.0
    ensures n / d == -n / -d
  {
    var q := n / d;
    assert q * d == n;
    DivideLe(-n, q, -d);
  }

  lemma QuotientOfNegatives(n: real, d: real)
    requires d < 0.0 && n <= 0.0
    ensures n / d >= 0.0
    ensures n / d <= 1.0 <==> d <= n
  {
    NegativeQuotient(n, d);
    DivideLe(-n, 0.0, -d);
    DivideLe(-n, 1.0, -d);
  }

  // ---------------------------------------------------------------- pools that are safe

  /** Extending a list of negative labels lowers the sum. */
  lemma {:induction false} LongerIsWorse(log2: nat -> real, labels: seq<int>, n: nat)
    requires IsLog(log2) && n <= |labels| && forall i | 0 <= i < |labels| :: labels[i] < 0
    ensures Discounted(log2, Gains(labels)) <= Discounted(log2, Gains(labels[..n])) <= 0.0
    ensures labels != [] ==> Discounted(log2, Gains(labels)) < 0.0
    decreases |labels|
  {
    if labels == [] {
      assert labels[..n] == [];
    } else if n == |labels| {
      assert labels[..n] == labels;
      LongerIsWorse(log2, labels[..n - 1], n - 1);
      LastLowers(log2, labels);
    } else {
      var init := labels[..|labels| - 1];
      assert init[..n] == labels[..n];
      LongerIsWorse(log2, init, n);
      LastLowers(log2, labels);
    }
  }

  lemma LastLowers(log2: nat -> real, labels: seq<int>)
    requires IsLog(log2) && labels != [] && labels[|labels| - 1] < 0
    ensures Discounted(log2, Gains(labels)) < Discounted(log2, Gains(labels[..|labels| - 1]))
  {
    var last := |labels| - 1;
    assert Gains(labels)[..last] == Gains(labels[..last]);
    NegativeGain(labels[last]);
    DivideLe(Gain(labels[last]), 0.0, log2(last + 2));
  }

  lemma AlikeInUnit(log2: nat -> real, pool: seq<int>, labels: seq<int>, k: int)
    requires IsLog(log2) && AllAlike(pool) && pool != [] && pool[0] < 0
    requires k > 0 && multiset(labels) <= multiset(pool)
    ensures InUnit(NdcgAtK(log2, labels, k, Some(pool)))
  {
    var best := BestFirst(pool);
    AllFrom(pool, best);
    AllFrom(pool, labels);
    SomeFits(labels, pool);
    var bestTop, top := Top(best, k), Top(labels, k);
    assert top == bestTop[..|top|];
    LongerIsWorse(log2, bestTop, |top|);
    QuotientOfNegatives(Dcg(log2, labels, k), Dcg(log2, best, k));
  }

  lemma AllFrom(pool: seq<int>, some: seq<int>)
    requires AllAlike(pool) && pool != [] && multiset(some) <= multiset(pool)
    ensures forall i | 0 <= i < |some| :: some[i] == pool[0]
  {
    forall i | 0 <= i < |some| ensures some[i] == pool[0] {
      assert some[i] in multiset(some) && some[i] in multiset(pool);
    }
  }

  // ---------------------------------------------------------------- pools that are not

  lemma OneLabel(log2: nat -> real, grade: int, k: nat)
    requires IsLog(log2) && k > 0
    ensures Dcg(log2, [grade], k) == Gain(grade) / log2(2)
  {
    var labels := [grade];
    assert labels[..1] == labels && Top(labels, k) == labels;
    assert Gains(labels)[..0] == [];
    assert Discounted(log2, Gains(labels)) == 0.0 + Gains(labels)[0] / log2(0 + 2);
  }

  lemma FirstOnly(log2: nat -> real, best: seq<int>)
    requires IsLog(log2) && best != []
    ensures Dcg(log2, best, 1) == Gain(best[0]) / log2(2)
  {
    OneLabel(log2, best[0], 1);
    assert Top(best, 1) == [best[0]] == Top([best[0]], 1);
  }

  lemma {:induction false} ZerosScoreNothing(log2: nat -> real, labels: seq<int>)
    requires IsLog(log2) && forall i | 0 <= i < |labels| :: labels[i] == 0
    ensures Discounted(log2, Gains(labels)) == 0.0
    decreases |labels|
  {
    if labels != [] {
      var last := |labels| - 1;
      ZerosScoreNothing(log2, labels[..last]);
      assert Gains(labels)[..last] == Gains(labels[..last]);
      GradedGain(0);
      DivideLe(0.0, 0.0, log2(last + 2));
    }
  }

  /** A cutoff just after the first negative label, the ones before it being all 0. */
  lemma FirstNegative(log2: nat -> real, best: seq<int>, z: nat)
    requires IsLog(log2) && z < |best| && best[z] < 0 && forall i | 0 <= i < z :: best[i] == 0
    ensures Dcg(log2, best, z + 1) == Gain(best[z]) / log2(z + 2)
  {
    var top := Top(best, z + 1);
    assert Gains(top)[..z] == Gains(best[..z]);
    ZerosScoreNothing(log2, best[..z]);
  }

  lemma LaterCostsLess(g: real, a: real, b: real)
    requires g < 0.0 && 0.0 < a < b
    ensures g / a < g / b < 0.0
  {
    DivideLe(g, 0.0, b);
    var q := g / b;
    assert q * b == g;
    PositiveProduct(-q, b - a);
    assert (-q) * (b - a) == q * a - q * b;
    DivideLe(g, q, a);
  }

  lemma OutsideUnit(n: real, d: real)
    requires n < 0.0 && (d > 0.0 || n < d < 0.0)
    ensures n / d < 0.0 || n / d > 1.0
  {
    if d > 0.0 {
      DivideLe(n, 0.0, d);
    } else {
      QuotientOfNegatives(n, d);
    }
  }

  /** One negative label, against a pool whose own best is positive or costs less. */
  lemma OneLabelEscapes(log2: nat -> real, pool: seq<int>, grade: int, k: nat)
    requires IsLog(log2) && k > 0 && grade in pool
    requires var n, d := Dcg(log2, [grade], k), Dcg(log2, BestFirst(pool), k); n < 0.0 && (d > 0.0 || n < d < 0.0)
    ensures !AlwaysInUnit(log2, pool)
  {
    var labels := [grade];
    assert multiset(labels) <= multiset(pool);
    OutsideUnit(Dcg(log2, labels, k), Dcg(log2, BestFirst(pool), k));
    assert !InUnit(NdcgAtK(log2, labels, k, Some(pool)));
  }

  lemma QuotientSign(n: real, d: real)
    requires d > 0.0
    ensures n > 0.0 ==> n / d > 0.0
    ensures n < 0.0 ==> n / d < 0.0
  {
    DivideLe(n, 0.0, d);
  }

  lemma NegativeLabelCosts(log2: nat -> real, x: int, k: nat)
    requires IsLog(log2) && k > 0 && x < 0
    ensures Dcg(log2, [x], k) < 0.0
  {
    OneLabel(log2, x, k);
    NegativeGain(x);
    QuotientSign(Gain(x), log2(2));
  }

  lemma PositiveBestGains(log2: nat -> real, best: seq<int>)
    requires IsLog(log2) && best != [] && best[0] > 0
    ensures Dcg(log2, best, 1) > 0.0
  {
    FirstOnly(log2, best);
    GradedGain(best[0]);
    QuotientSign(Gain(best[0]), log2(2));
  }

  lemma BestPositive(log2: nat -> real, pool: seq<int>, x: int)
    requires IsLog(log2) && pool != [] && x in pool && x < 0 < BestFirst(pool)[0]
    ensures !AlwaysInUnit(log2, pool)
  {
    PositiveBestGains(log2, BestFirst(pool));
    NegativeLabelCosts(log2, x, 1);
    OneLabelEscapes(log2, pool, x, 1);
  }

  lemma BestZero(log2: nat -> real, pool: seq<int>, x: int)
    requires IsLog(log2) && pool != [] && x in pool && x in BestFirst(pool) && x < 0 == BestFirst(pool)[0]
    ensures !AlwaysInUnit(log2, pool)
  {
    var best := BestFirst(pool);
    var z := FirstBelowZero(best, x);
    FirstNegative(log2, best, z);
    OneLabel(log2, best[z], z + 1);
    NegativeGain(best[z]);
    LaterCostsLess(Gain(best[z]), log2(2), log2(z + 2));
    assert best[z] in multiset(best) && best[z] in multiset(pool);
    OneLabelEscapes(log2, pool, best[z], z + 1);
  }

  lemma BestNegative(log2: nat -> real, pool: seq<int>, x: int)
    requires IsLog(log2) && pool != [] && x in pool && x < BestFirst(pool)[0] < 0
    ensures !AlwaysInUnit(log2, pool)
  {
    var best := BestFirst(pool);
    FirstOnly(log2, best);
    OneLabel(log2, x, 1);
    NegativeGain(best[0]);
    GainIncreasing(x, best[0]);
    DivideOrdered(Gain(x), Gain(best[0]), log2(2));
    OneLabelEscapes(log2, pool, x, 1);
  }

  lemma NegativesEscape(log2: nat -> real, pool: seq<int>)
    requires IsLog(log2) && !Graded(pool) && !AllAlike(pool)
    ensures !AlwaysInUnit(log2, pool)
  {
    var best := BestFirst(pool);
    var x := Worst(pool, best);
    if best[0] > 0 {
      BestPositive(log2, pool, x);
    } else if best[0] == 0 {
      BestZero(log2, pool, x);
    } else {
      BestNegative(log2, pool, x);
    }
  }

  lemma DivideOrdered(a: real, b: real, d: real)
    requires a < b < 0.0 && d > 0.0
    ensures a / d < b / d < 0.0
  {
    var q := b / d;
    assert q * d == b;
    DivideLe(b, 0.0, d);
    DivideLe(a, q, d);
  }

  /** A pool with a negative label and two different ones has one below zero and below its best. */
  lemma Worst(pool: seq<int>, best: seq<int>) returns (x: int)
    requires !Graded(pool) && !AllAlike(pool) && Descending(best) && multiset(best) == multiset(pool)
    ensures best != [] && x in pool && x in best && x < 0 && x < best[0]
  {
    var i :| 0 <= i < |pool| && pool[i] < 0;
    var j :| 0 <= j < |pool| && pool[j] != pool[0];
    assert pool[i] in multiset(best) && pool[j] in multiset(best) && pool[0] in multiset(best);
    assert forall y | y in best :: y <= best[0];
    x := if pool[i] < best[0] then pool[i] else if pool[j] < pool[0] then pool[j] else pool[0];
  }

  lemma FirstBelowZero(best: seq<int>, x: int) returns (z: nat)
    requires Descending(best) && best != [] && best[0] == 0 && x in best && x < 0
    ensures 1 <= z < |best| && best[z] < 0 && forall i | 0 <= i < z :: best[i] == 0
  {
    z := 1;
    while best[z] == 0
      invariant 1 <= z < |best| && forall i | 0 <= i < z :: best[i] == 0
      decreases |best| - z
    {
      assert exists i :: z < i < |best| && best[i] == x;
      z := z + 1;
    }
  }

  /** The range holds for every selection and cutoff if and only if the pool has no negative
      label, or only one label. */
  lemma RangeExactly(log2: nat -> real, pool: seq<int>)
    requires IsLog(log2)
    ensures AlwaysInUnit(log2, pool) <==> Graded(pool) || AllAlike(pool)
  {
    if Graded(pool) || AllAlike(pool) {
      forall labels: seq<int>, k: int | k > 0 && multiset(labels) <= multiset(pool)
        ensures InUnit(NdcgAtK(log2, labels, k, Some(pool)))
      {
        if Graded(pool) {
          NdcgInRange(log2, labels, k, Some(pool));
        } else {
          AlikeInUnit(log2, pool, labels, k);
        }
      }
    } else {
      NegativesEscape(log2, pool);
    }
  }

  lemma HalfQuotient(l: real)
    requires l > 0.0
    ensures 1.0 / l != 0.0 && (-0.5 / l) / (1.0 / l) == -0.5
  {
    var d := 1.0 / l;
    QuotientSign(1.0, l);
    DivideLe(1.0, d, l);
    DivideLe(-0.5, -0.5 * d, l);
    DivideLe(-0.5 * d, -0.5, d);
  }

  lemma SmallGains()
    ensures Gain(1) == 1.0 && Gain(-1) == -0.5
  {
    assert Power(0) == 1.0 && Power(1) == 2.0 && Power(-1) == 0.5;
  }

  lemma NegativePoolDcg(log2: nat -> real, pool: seq<int>)
    requires IsLog(log2) && |pool| == 2 && pool[0] == 1 && pool[1] == -1
    ensures Dcg(log2, BestFirst(pool), 1) == 1.0 / log2(2) && Dcg(log2, [-1], 1) == -0.5 / log2(2)
  {
    SmallGains();
    DescendingIsUnique(BestFirst(pool), pool);
    FirstOnly(log2, pool);
    OneLabel(log2, -1, 1);
  }

  lemma ScoreOf(log2: nat -> real, pool: seq<int>)
    requires IsLog(log2) && |pool| == 2 && pool[0] == 1 && pool[1] == -1
    ensures NdcgAtK(log2, [-1], 1, Some(pool)) == Ok(Some(-0.5))
  {
    NegativePoolDcg(log2, pool);
    HalfQuotient(log2(2));
  }

  /** For instance: ranking only the -1 of the pool [1, -1] scores -1/2. */
  lemma NegativeScore(log2: nat -> real)
    requires IsLog(log2)
    ensures NdcgAtK(log2, [-1], 1, Some([1, -1])) == Ok(Some(-0.5))
  {
    ScoreOf(log2, [1, -1]);
  }
}
