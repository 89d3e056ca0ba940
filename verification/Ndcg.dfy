/** Normalised discounted cumulative gain, and why the sorted order is the best one.

    The logarithm is a parameter: any function positive and strictly increasing from 2 on. */
module Ndcg {
  import opened Prelude
  import opened RealArith
  import opened Sequences

  datatype ValueError = NonPositiveK

  ghost predicate IsLog(log2: nat -> real) {
    && (forall n: nat | n >= 2 :: log2(n) > 0.0)
    && (forall m: nat, n: nat | 2 <= m < n :: log2(m) < log2(n))
  }

  // ---------------------------------------------------------------- gains

  /** 2**n, for n of either sign. */
  function Power(n: int): (p: real)
    ensures p > 0.0
    decreases if n >= 0 then n else -n
  {
    if n == 0 then 1.0 else if n > 0 then 2.0 * Power(n - 1) else Power(n + 1) / 2.0
  }

  function Gain(grade: int): real {
    Power(grade) - 1.0
  }

  lemma {:induction false} GainIncreasing(a: int, b: int)
    requires a < b
    ensures Gain(a) < Gain(b)
    decreases b - a
  {
    assert Power(b) == 2.0 * Power(b - 1);
    if a < b - 1 {
      GainIncreasing(a, b - 1);
    }
  }

  function Gains(labels: seq<int>): (gains: seq<real>)
    ensures |gains| == |labels| && forall i | 0 <= i < |labels| :: gains[i] == Gain(labels[i])
  {
    seq(|labels|, i requires 0 <= i < |labels| => Gain(labels[i]))
  }

  // ---------------------------------------------------------------- the metric

  function Weight(log2: nat -> real, position: nat): real
    requires IsLog(log2)
  {
    1.0 / log2(position + 2)
  }

  /** sum of gain / log2(position + 2) */
  function Discounted(log2: nat -> real, gains: seq<real>): real
    requires IsLog(log2)
  {
    if gains == [] then 0.0
    else
      var last := |gains| - 1;
      Discounted(log2, gains[..last]) + gains[last] / log2(last + 2)
  }

  function Top<T>(xs: seq<T>, k: nat): seq<T> {
    if k <= |xs| then xs[..k] else xs
  }

  function Dcg(log2: nat -> real, labels: seq<int>, k: nat): real
    requires IsLog(log2)
  {
    Discounted(log2, Gains(Top(labels, k)))
  }

  predicate Descending(labels: seq<int>) {
    forall i, j | 0 <= i < j < |labels| :: labels[i] >= labels[j]
  }

  function BestFirst(labels: seq<int>): (best: seq<int>)
    ensures Descending(best) && multiset(best) == multiset(labels) && |best| == |labels|
  {
    if labels == [] then []
    else
      assert labels == labels[..|labels| - 1] + [labels[|labels| - 1]];
      InsertLabel(BestFirst(labels[..|labels| - 1]), labels[|labels| - 1])
  }

  function InsertLabel(best: seq<int>, grade: int): (longer: seq<int>)
    requires Descending(best)
    ensures Descending(longer) && multiset(longer) == multiset(best) + multiset{grade} && |longer| == |best| + 1
  {
    if best == [] || best[|best| - 1] >= grade then best + [grade]
    else
      var init, last := best[..|best| - 1], best[|best| - 1];
      var front := InsertLabel(init, grade);
      AppendSmallest(front, init, grade, last);
      assert best == init + [last];
      front + [last]
  }

  lemma AppendSmallest(front: seq<int>, init: seq<int>, grade: int, last: int)
    requires Descending(front) && multiset(front) == multiset(init) + multiset{grade}
    requires last <= grade && forall i | 0 <= i < |init| :: last <= init[i]
    ensures Descending(front + [last])
  {
    forall i | 0 <= i < |front| ensures last <= front[i] {
      assert front[i] in multiset(front);
    }
  }

  function NdcgAtK(log2: nat -> real, labels: seq<int>, k: int, ideal: Option<seq<int>>): Result<Option<real>, ValueError>
    requires IsLog(log2)
  {
    if k <= 0 then Err(NonPositiveK)
    else
      var best := BestFirst(if ideal.Some? then ideal.value else labels);
      var idealDcg := Dcg(log2, best, k);
      if idealDcg == 0.0 then Ok(None) else Ok(Some(Dcg(log2, labels, k) / idealDcg))
  }

  // ---------------------------------------------------------------- prefix sums decide

  function Differences(xs: seq<real>, ys: seq<real>): (ds: seq<real>)
    requires |xs| == |ys|
    ensures |ds| == |xs| && forall i | 0 <= i < |xs| :: ds[i] == ys[i] - xs[i]
  {
    seq(|xs|, i requires 0 <= i < |xs| => ys[i] - xs[i])
  }

  lemma {:induction false} SumOfDifferences(xs: seq<real>, ys: seq<real>)
    requires |xs| == |ys|
    ensures Sum(Differences(xs, ys)) == Sum(ys) - Sum(xs)
  {
    if xs != [] {
      var n := |xs| - 1;
      assert Differences(xs, ys)[..n] == Differences(xs[..n], ys[..n]);
      SumOfDifferences(xs[..n], ys[..n]);
    }
  }

  lemma {:induction false} DiscountedDifferences(log2: nat -> real, xs: seq<real>, ys: seq<real>)
    requires IsLog(log2) && |xs| == |ys|
    ensures Discounted(log2, Differences(xs, ys)) == Discounted(log2, ys) - Discounted(log2, xs)
  {
    if xs != [] {
      var n := |xs| - 1;
      var ds := Differences(xs, ys);
      assert ds[..n] == Differences(xs[..n], ys[..n]);
      DiscountedDifferences(log2, xs[..n], ys[..n]);
      DivideDifference(ys[n], xs[n], log2(n + 2));
      assert Discounted(log2, ds) == Discounted(log2, ds[..n]) + (ys[n] - xs[n]) / log2(n + 2);
    }
  }

  lemma DivideDifference(a: real, b: real, d: real)
    requires d > 0.0
    ensures (a - b) / d == a / d - b / d
  {
    assert (a / d - b / d) * d == a - b;
    DivideLe(a - b, a / d - b / d, d);
  }

  /** Every prefix of `ds` has a non-negative sum. */
  ghost predicate PrefixesNonNegative(ds: seq<real>) {
    forall j | 0 <= j <= |ds| :: Sum(ds[..j]) >= 0.0
  }

  lemma WeightsDecrease(log2: nat -> real, i: nat)
    requires IsLog(log2)
    ensures 0.0 < Weight(log2, i + 1) < Weight(log2, i)
  {
    var a, b := log2(i + 2), log2(i + 3);
    DivideLe(1.0, 0.0, a);
    DivideLe(1.0, 0.0, b);
    ReciprocalDecreases(a, b);
  }

  lemma ReciprocalDecreases(a: real, b: real)
    requires 0.0 < a < b
    ensures 1.0 / b < 1.0 / a
  {
    var p, q := 1.0 / a, 1.0 / b;
    assert p * a == 1.0 && q * b == 1.0;
    DivideLe(1.0, 0.0, b);
    PositiveProduct(q, b - a);
    assert q * (b - a) == q * b - q * a;
    DivideLe(1.0, q, a);
  }

  lemma DivideIsWeight(x: real, d: real)
    requires d > 0.0
    ensures x / d == x * (1.0 / d)
  {
    assert (x * (1.0 / d)) * d == x * ((1.0 / d) * d);
    DivideLe(x, x * (1.0 / d), d);
  }

  ghost predicate AtLeast(total: real, w: real, s: real) {
    total >= w * s
  }

  ghost predicate Exceeds(total: real, w: real, s: real) {
    total > w * s
  }

  lemma PartsStep(total: real, w: real, w': real, s: real, d: real)
    requires AtLeast(total, w, s) && w > w' > 0.0 && s >= 0.0
    ensures AtLeast(total + d * w', w', s + d)
    ensures s > 0.0 || Exceeds(total, w, s) ==> Exceeds(total + d * w', w', s + d)
  {
    assert w * s == w' * s + (w - w') * s;
    NonNegativeProduct(w - w', s);
    assert w' * (s + d) == w' * s + d * w';
  }

  /** One step of summation by parts: the next position weighs less than the last. */
  lemma PartsAt(log2: nat -> real, n: nat, total: real, s: real, d: real)
    requires IsLog(log2) && n >= 1 && s >= 0.0 && AtLeast(total, Weight(log2, n - 1), s)
    ensures AtLeast(total + d / log2(n + 2), Weight(log2, n), s + d)
    ensures s > 0.0 || Exceeds(total, Weight(log2, n - 1), s) ==>
              Exceeds(total + d / log2(n + 2), Weight(log2, n), s + d)
  {
    DivideIsWeight(d, log2(n + 2));
    WeightsDecrease(log2, n - 1);
    PartsStep(total, Weight(log2, n - 1), Weight(log2, n), s, d);
  }

  lemma PartsStart(log2: nat -> real, d: real)
    requires IsLog(log2)
    ensures AtLeast(d / log2(2), Weight(log2, 0), d)
  {
    DivideIsWeight(d, log2(2));
    assert d * Weight(log2, 0) == Weight(log2, 0) * d;
  }

  ghost predicate PrefixPositive(ds: seq<real>, j: int) {
    0 <= j < |ds| && Sum(ds[..j]) > 0.0
  }

  /** Summation by parts: the discounted sum is at least the last weight times the plain sum,
      and strictly more when some proper prefix has a positive sum. */
  lemma {:induction false} DiscountedAtLeast(log2: nat -> real, ds: seq<real>)
    requires IsLog(log2) && ds != [] && PrefixesNonNegative(ds)
    ensures AtLeast(Discounted(log2, ds), Weight(log2, |ds| - 1), Sum(ds))
    ensures (exists j :: PrefixPositive(ds, j)) ==> Exceeds(Discounted(log2, ds), Weight(log2, |ds| - 1), Sum(ds))
    decreases |ds|
  {
    var n := |ds| - 1;
    var init := ds[..n];
    if n == 0 {
      assert Discounted(log2, init) == 0.0 && Sum(init) == 0.0;
      PartsStart(log2, ds[0]);
      assert forall j | 0 <= j < |ds| :: ds[..j] == [];
    } else {
      assert forall j | 0 <= j <= n :: init[..j] == ds[..j];
      DiscountedAtLeast(log2, init);
      PartsAt(log2, n, Discounted(log2, init), Sum(init), ds[n]);
      if j :| PrefixPositive(ds, j) {
        if j < n {
          assert PrefixPositive(init, j);
        } else {
          assert ds[..j] == init;
        }
      }
    }
  }

  lemma WeightedSign(total: real, w: real, s: real)
    requires AtLeast(total, w, s) && w > 0.0 && s >= 0.0
    ensures total >= 0.0
    ensures s > 0.0 || Exceeds(total, w, s) ==> total > 0.0
  {
    NonNegativeProduct(w, s);
  }

  lemma DiscountedSign(log2: nat -> real, ds: seq<real>)
    requires IsLog(log2) && PrefixesNonNegative(ds)
    ensures Discounted(log2, ds) >= 0.0
    ensures (exists j :: 0 <= j <= |ds| && Sum(ds[..j]) > 0.0) ==> Discounted(log2, ds) > 0.0
  {
    if ds == [] {
      assert forall j | 0 <= j <= |ds| :: ds[..j] == [];
    } else {
      var n := |ds| - 1;
      DiscountedAtLeast(log2, ds);
      WeightsDecrease(log2, n);
      assert ds[..|ds|] == ds;
      WeightedSign(Discounted(log2, ds), Weight(log2, n), Sum(ds));
      if j :| 0 <= j <= |ds| && Sum(ds[..j]) > 0.0 {
        assert j < |ds| ==> PrefixPositive(ds, j);
      }
    }
  }

  lemma DifferencesAhead(xs: seq<real>, ys: seq<real>)
    requires |xs| == |ys| && forall j | 0 <= j <= |xs| :: Sum(xs[..j]) <= Sum(ys[..j])
    ensures PrefixesNonNegative(Differences(xs, ys))
  {
    var ds := Differences(xs, ys);
    forall j | 0 <= j <= |ds| ensures Sum(ds[..j]) >= 0.0 {
      SumOfDifferences(xs[..j], ys[..j]);
      assert ds[..j] == Differences(xs[..j], ys[..j]);
    }
  }

  /** So a sequence ahead on every prefix is ahead discounted, and level only if identical. */
  lemma AheadOnPrefixes(log2: nat -> real, xs: seq<real>, ys: seq<real>)
    requires IsLog(log2) && |xs| == |ys|
    requires forall j | 0 <= j <= |xs| :: Sum(xs[..j]) <= Sum(ys[..j])
    ensures Discounted(log2, xs) <= Discounted(log2, ys)
    ensures Discounted(log2, xs) == Discounted(log2, ys) <==> xs == ys
  {
    var ds := Differences(xs, ys);
    DiscountedDifferences(log2, xs, ys);
    DifferencesAhead(xs, ys);
    DiscountedSign(log2, ds);
    if xs != ys {
      var j := FirstPositive(ds, xs, ys);
    }
  }

  /** If the sequences differ, some prefix of the differences has a positive sum. */
  lemma FirstPositive(ds: seq<real>, xs: seq<real>, ys: seq<real>) returns (j: nat)
    requires |xs| == |ys| && ds == Differences(xs, ys) && xs != ys && PrefixesNonNegative(ds)
    ensures j <= |ds| && Sum(ds[..j]) > 0.0
  {
    var i :| 0 <= i < |xs| && xs[i] != ys[i];
    assert ds[..i + 1][..i] == ds[..i];
    assert Sum(ds[..i + 1]) == Sum(ds[..i]) + ds[i];
    assert Sum(ds[..i]) >= 0.0 && Sum(ds[..i + 1]) >= 0.0;
    j := if Sum(ds[..i]) > 0.0 then i else i + 1;
  }

  // ---------------------------------------------------------------- sorted order is ahead on every prefix

  lemma {:induction false} TopSumLargest(some: seq<int>, best: seq<int>)
    requires Descending(best) && multiset(some) <= multiset(best)
    ensures |some| <= |best| && Sum(Gains(some)) <= Sum(Gains(best[..|some|]))
    decreases |best|
  {
    if some == [] {
      assert best[..0] == [];
    } else {
      SomeFits(some, best);
      var first, rest := best[0], best[1..];
      var i := if first in some then IndexOf(some, first) else |some| - 1;
      var fewer := Without(some, i);
      RemoveFits(some, best, i);
      TopSumLargest(fewer, rest);
      GainsWithout(some, i);
      FirstIsLargest(some, best, i);
      GainsCons(first, rest[..|fewer|]);
      assert best[..|some|] == [first] + rest[..|fewer|];
    }
  }

  lemma FirstIsLargest(some: seq<int>, best: seq<int>, i: nat)
    requires Descending(best) && best != [] && multiset(some) <= multiset(best) && i < |some|
    ensures Gain(some[i]) <= Gain(best[0])
  {
    assert some[i] in multiset(some) && some[i] in multiset(best);
    var j :| 0 <= j < |best| && best[j] == some[i];
    if some[i] != best[0] {
      GainIncreasing(some[i], best[0]);
    }
  }

  function IndexOf(xs: seq<int>, x: int): (i: nat)
    requires x in xs
    ensures i < |xs| && xs[i] == x
  {
    if xs[0] == x then 0 else 1 + IndexOf(xs[1..], x)
  }

  lemma SomeFits(some: seq<int>, best: seq<int>)
    requires multiset(some) <= multiset(best)
    ensures |some| <= |best|
    ensures some != [] ==> best != []
  {
    assert multiset(best) == multiset(some) + (multiset(best) - multiset(some));
    assert |multiset(best)| == |multiset(some)| + |multiset(best) - multiset(some)|;
    assert |some| == |multiset(some)| && |best| == |multiset(best)|;
  }

  /** Dropping the best label from both, or any label when the best is not among them. */
  lemma RemoveFits(some: seq<int>, best: seq<int>, i: nat)
    requires best != [] && i < |some| && multiset(some) <= multiset(best)
    requires best[0] in some ==> some[i] == best[0]
    ensures multiset(Without(some, i)) <= multiset(best[1..])
  {
    WithoutMultiset(some, i);
    assert best == [best[0]] + best[1..];
    var fewer, rest := multiset(Without(some, i)), multiset(best[1..]);
    assert multiset(best) == multiset{best[0]} + rest;
    forall x ensures fewer[x] <= rest[x] {
      assert multiset(some)[x] <= multiset(best)[x];
      if x == best[0] && best[0] !in some {
        assert x !in multiset(some);
      }
    }
  }

  lemma GainsCons(first: int, rest: seq<int>)
    ensures Sum(Gains([first] + rest)) == Gain(first) + Sum(Gains(rest))
  {
    assert Gains([first] + rest) == [Gain(first)] + Gains(rest);
    SumAppend([Gain(first)], Gains(rest));
    assert Sum([Gain(first)]) == Gain(first);
  }

  lemma GainsWithout(xs: seq<int>, i: nat)
    requires i < |xs|
    ensures Sum(Gains(xs)) == Gain(xs[i]) + Sum(Gains(Without(xs, i)))
  {
    var gs := Gains(xs);
    assert Gains(Without(xs, i)) == gs[..i] + gs[i + 1..];
    SumAppend(gs[..i], gs[i + 1..]);
    SumSplit(gs, i + 1);
    assert gs[..i + 1][..i] == gs[..i];
  }

  // ---------------------------------------------------------------- NDCG

  /** Rearrangement, truncated at k: of all orderings of labels drawn from a pool, none has a
      larger discounted sum than the pool's own best-first order, position for position. */
  lemma TopOfBestIsAhead(log2: nat -> real, labels: seq<int>, best: seq<int>, top: seq<int>)
    requires IsLog(log2) && Descending(best) && multiset(labels) <= multiset(best)
    requires |top| == |labels| && top <= best
    ensures Discounted(log2, Gains(labels)) <= Discounted(log2, Gains(top))
    ensures Discounted(log2, Gains(labels)) == Discounted(log2, Gains(top)) <==> labels == top
  {
    forall j | 0 <= j <= |labels| ensures Sum(Gains(labels)[..j]) <= Sum(Gains(top)[..j]) {
      assert labels == labels[..j] + labels[j..];
      assert multiset(labels[..j]) <= multiset(labels);
      TopSumLargest(labels[..j], best);
      assert Gains(labels)[..j] == Gains(labels[..j]);
      assert Gains(top)[..j] == Gains(best[..j]);
    }
    AheadOnPrefixes(log2, Gains(labels), Gains(top));
    GainsInjective(labels, top);
  }

  lemma GainsInjective(xs: seq<int>, ys: seq<int>)
    requires |xs| == |ys|
    ensures Gains(xs) == Gains(ys) <==> xs == ys
  {
    if Gains(xs) == Gains(ys) {
      forall i | 0 <= i < |xs| ensures xs[i] == ys[i] {
        assert Gains(xs)[i] == Gains(ys)[i];
        if xs[i] < ys[i] {
          GainIncreasing(xs[i], ys[i]);
        } else if ys[i] < xs[i] {
          GainIncreasing(ys[i], xs[i]);
        }
      }
    }
  }

  lemma TopFits(labels: seq<int>, pool: seq<int>, k: nat)
    requires multiset(labels) <= multiset(pool)
    ensures multiset(Top(labels, k)) <= multiset(pool)
  {
    if k <= |labels| {
      assert labels == labels[..k] + labels[k..];
    }
  }

  predicate Graded(labels: seq<int>) {
    forall i | 0 <= i < |labels| :: labels[i] >= 0
  }

  lemma GradedGain(grade: int)
    requires grade >= 0
    ensures Gain(grade) >= 0.0 && (Gain(grade) == 0.0 <==> grade == 0)
  {
    if grade > 0 {
      GainIncreasing(0, grade);
    }
  }

  /** Extending a list of non-negative labels never lowers the sum, and keeps it only if
      everything appended is 0. */
  lemma {:induction false} LongerIsNoWorse(log2: nat -> real, labels: seq<int>, n: nat)
    requires IsLog(log2) && Graded(labels) && n <= |labels|
    ensures Discounted(log2, Gains(labels[..n])) <= Discounted(log2, Gains(labels))
    ensures Discounted(log2, Gains(labels[..n])) == Discounted(log2, Gains(labels)) <==>
              forall i | n <= i < |labels| :: labels[i] == 0
    decreases |labels|
  {
    if n == |labels| {
      assert labels[..n] == labels;
    } else {
      var init := labels[..|labels| - 1];
      assert init[..n] == labels[..n];
      LongerIsNoWorse(log2, init, n);
      OneMoreLabel(log2, labels);
      assert forall i | n <= i < |init| :: init[i] == labels[i];
    }
  }

  lemma OneMoreLabel(log2: nat -> real, labels: seq<int>)
    requires IsLog(log2) && labels != [] && labels[|labels| - 1] >= 0
    ensures Discounted(log2, Gains(labels[..|labels| - 1])) <= Discounted(log2, Gains(labels))
    ensures Discounted(log2, Gains(labels[..|labels| - 1])) == Discounted(log2, Gains(labels)) <==> labels[|labels| - 1] == 0
  {
    var last := |labels| - 1;
    assert Gains(labels)[..last] == Gains(labels[..last]);
    GradedGain(labels[last]);
    DivideLe(Gain(labels[last]), 0.0, log2(last + 2));
  }

  /** DCG is largest best-first, for any labels whatever and any k. */
  lemma DcgLargestBestFirst(log2: nat -> real, labels: seq<int>, k: nat)
    requires IsLog(log2)
    ensures Dcg(log2, labels, k) <= Dcg(log2, BestFirst(labels), k)
    ensures Dcg(log2, labels, k) == Dcg(log2, BestFirst(labels), k) <==> Top(labels, k) == Top(BestFirst(labels), k)
  {
    var best := BestFirst(labels);
    TopFits(labels, best, k);
    TopOfBestIsAhead(log2, Top(labels, k), best, Top(best, k));
  }

  lemma DcgNonNegative(log2: nat -> real, labels: seq<int>, k: nat)
    requires IsLog(log2) && Graded(labels)
    ensures Dcg(log2, labels, k) >= 0.0
    ensures Dcg(log2, labels, k) == 0.0 <==> forall i | 0 <= i < |Top(labels, k)| :: labels[i] == 0
  {
    LongerIsNoWorse(log2, Top(labels, k), 0);
    assert Top(labels, k)[..0] == [];
    assert Gains([]) == [];
  }

  lemma DcgAtMostPool(log2: nat -> real, labels: seq<int>, pool: seq<int>, k: nat)
    requires IsLog(log2) && Graded(pool) && multiset(labels) <= multiset(pool)
    ensures Dcg(log2, labels, k) <= Dcg(log2, BestFirst(pool), k)
  {
    var best := BestFirst(pool);
    TopFits(labels, best, k);
    SomeFits(Top(labels, k), best);
    TopOfBestIsAhead(log2, Top(labels, k), best, best[..|Top(labels, k)|]);
    PoolGraded(pool, best);
    ShorterTopIsNoBetter(log2, best, |Top(labels, k)|, k);
  }

  lemma ShorterTopIsNoBetter(log2: nat -> real, labels: seq<int>, n: nat, k: nat)
    requires IsLog(log2) && Graded(labels) && n <= |labels| && n <= k
    ensures Discounted(log2, Gains(labels[..n])) <= Discounted(log2, Gains(Top(labels, k)))
  {
    assert Top(labels, k)[..n] == labels[..n];
    LongerIsNoWorse(log2, Top(labels, k), n);
  }

  lemma PoolGraded(pool: seq<int>, some: seq<int>)
    requires Graded(pool) && multiset(some) <= multiset(pool)
    ensures Graded(some)
  {
    forall i | 0 <= i < |some| ensures some[i] >= 0 {
      assert some[i] in multiset(some);
      assert some[i] in multiset(pool);
    }
  }

  lemma IdealSound(log2: nat -> real, pool: seq<int>, k: int)
    requires IsLog(log2) && k > 0 && Graded(pool)
    ensures Dcg(log2, BestFirst(pool), k) >= 0.0
    ensures Dcg(log2, BestFirst(pool), k) == 0.0 <==> forall i | 0 <= i < |pool| :: pool[i] == 0
  {
    var best := BestFirst(pool);
    PoolGraded(pool, best);
    DcgNonNegative(log2, best, k);
    NothingToFind(pool, best, k);
  }

  lemma UnitRange(n: real, d: real)
    requires 0.0 <= n <= d && d > 0.0
    ensures 0.0 <= n / d <= 1.0
  {
    DivideLe(n, 0.0, d);
    DivideLe(n, 1.0, d);
  }

  /** NDCG against a pool containing the ranked labels is undefined exactly when nothing in the
      pool carries gain, and otherwise lies in [0, 1]. */
  lemma NdcgInRange(log2: nat -> real, labels: seq<int>, k: int, ideal: Option<seq<int>>)
    requires IsLog(log2) && k > 0
    requires Graded(if ideal.Some? then ideal.value else labels)
    requires ideal.Some? ==> multiset(labels) <= multiset(ideal.value)
    ensures var r := NdcgAtK(log2, labels, k, ideal);
            var pool := if ideal.Some? then ideal.value else labels;
            && r.Ok?
            && (r.value.None? <==> forall i | 0 <= i < |pool| :: pool[i] == 0)
            && (r.value.Some? ==> 0.0 <= r.value.value <= 1.0)
  {
    var pool := if ideal.Some? then ideal.value else labels;
    IdealSound(log2, pool, k);
    PoolGraded(pool, labels);
    DcgAtMostPool(log2, labels, pool, k);
    DcgNonNegative(log2, labels, k);
    var d := Dcg(log2, BestFirst(pool), k);
    if d > 0.0 {
      UnitRange(Dcg(log2, labels, k), d);
    }
  }

  lemma NothingToFind(pool: seq<int>, best: seq<int>, k: int)
    requires k > 0 && Graded(pool) && Descending(best) && multiset(best) == multiset(pool)
    ensures (forall i | 0 <= i < |Top(best, k)| :: best[i] == 0) <==> forall i | 0 <= i < |pool| :: pool[i] == 0
  {
    assert |best| == |multiset(best)| == |multiset(pool)| == |pool|;
    PoolGraded(pool, best);
    if best != [] && best[0] == 0 {
      forall i | 0 <= i < |pool| ensures pool[i] == 0 {
        assert pool[i] in multiset(best);
        var j :| 0 <= j < |best| && best[j] == pool[i];
      }
    }
    if forall i | 0 <= i < |pool| :: pool[i] == 0 {
      forall i | 0 <= i < |best| ensures best[i] == 0 {
        assert best[i] in multiset(pool);
      }
    }
  }

  lemma OneExactly(n: real, d: real)
    requires d != 0.0
    ensures n / d == 1.0 <==> n == d
  {
    if d > 0.0 {
      DivideLe(n, 1.0, d);
    } else {
      assert n / d == -n / -d;
      DivideLe(-n, 1.0, -d);
    }
  }

  /** Against its own labels a ranking scores 1 exactly when its top k is the best top k; so a
      ranking already in descending order always does. */
  lemma NdcgPerfectExactly(log2: nat -> real, labels: seq<int>, k: int)
    requires IsLog(log2) && k > 0 && NdcgAtK(log2, labels, k, None).value.Some?
    ensures NdcgAtK(log2, labels, k, None) == Ok(Some(1.0)) <==> Top(labels, k) == Top(BestFirst(labels), k)
    ensures Descending(labels) ==> NdcgAtK(log2, labels, k, None) == Ok(Some(1.0))
  {
    DcgLargestBestFirst(log2, labels, k);
    OneExactly(Dcg(log2, labels, k), Dcg(log2, BestFirst(labels), k));
    if Descending(labels) {
      DescendingIsUnique(labels, BestFirst(labels));
    }
  }

  lemma {:induction false} DescendingIsUnique(xs: seq<int>, ys: seq<int>)
    requires Descending(xs) && Descending(ys) && multiset(xs) == multiset(ys)
    ensures xs == ys
    decreases |xs|
  {
    assert |xs| == |multiset(xs)| == |multiset(ys)| == |ys|;
    if xs != [] {
      LastIsSmallest(xs, ys[|ys| - 1]);
      LastIsSmallest(ys, xs[|xs| - 1]);
      DropSameLast(xs, ys);
      DescendingIsUnique(xs[..|xs| - 1], ys[..|ys| - 1]);
      assert xs == xs[..|xs| - 1] + [xs[|xs| - 1]] && ys == ys[..|ys| - 1] + [ys[|ys| - 1]];
    }
  }

  lemma LastIsSmallest(xs: seq<int>, y: int)
    requires xs != [] && Descending(xs) && y in multiset(xs)
    ensures xs[|xs| - 1] <= y
  {
    var i :| 0 <= i < |xs| && xs[i] == y;
  }
}
