/** The value of the metric, term by term. */
module NdcgValue {
  import opened Prelude
  import opened RealArith
  import opened Ndcg

  /** The gain is 2 to the label, less one, for labels of either sign: it is 0 at 0, and each
      label more doubles it and one. */
  lemma GainLaw(n: int)
    ensures Gain(0) == 0.0
    ensures Gain(n + 1) + 1.0 == 2.0 * (Gain(n) + 1.0)
  {
  }

  /** No other function does. */
  lemma {:induction false} GainIsOnly(g: int -> real, n: int)
    requires g(0) == 0.0 && forall m: int :: Doubles(g, m)
    ensures g(n) == Gain(n)
    decreases if n >= 0 then n else -n
  {
    if n > 0 {
      GainIsOnly(g, n - 1);
      GainLaw(n - 1);
      assert Doubles(g, n - 1);
    } else if n < 0 {
      GainIsOnly(g, n + 1);
      GainLaw(n);
      assert Doubles(g, n);
    } else {
      GainLaw(0);
    }
  }

  ghost predicate Doubles(g: int -> real, m: int) {
    g(m + 1) + 1.0 == 2.0 * (g(m) + 1.0)
  }

  /** So the labels of the scale gain 0, 1, 3 and 7: an excellent match is worth more than two
      good ones. */
  lemma ScaleGains()
    ensures Gain(0) == 0.0 && Gain(1) == 1.0 && Gain(2) == 3.0 && Gain(3) == 7.0
    ensures Gain(3) > 2.0 * Gain(2)
  {
    GainLaw(0);
    GainLaw(1);
    GainLaw(2);
  }

  /** One more ranked label adds its gain over the logarithm of its place plus two, if its place
      is before the cutoff, and nothing otherwise; no label, no sum. */
  lemma NextTerm(log2: nat -> real, labels: seq<int>, grade: int, k: nat)
    requires IsLog(log2)
    ensures Dcg(log2, [], k) == 0.0
    ensures |labels| < k ==> Dcg(log2, labels + [grade], k) == Dcg(log2, labels, k) + Gain(grade) / log2(|labels| + 2)
    ensures |labels| >= k ==> Dcg(log2, labels + [grade], k) == Dcg(log2, labels, k)
  {
    NoLabels(log2, k);
    var longer := labels + [grade];
    if |labels| < k {
      TopIsAll(labels, k);
      TopIsAll(longer, k);
      LastTerm(log2, labels, grade);
    } else {
      assert Top(longer, k) == longer[..k] == labels[..k] == Top(labels, k);
    }
  }

  lemma NoLabels(log2: nat -> real, k: nat)
    requires IsLog(log2)
    ensures Dcg(log2, [], k) == 0.0
  {
    var none: seq<int> := [];
    TopIsAll(none, k);
    assert Gains(none) == [];
  }

  lemma TopIsAll(labels: seq<int>, k: nat)
    requires |labels| <= k
    ensures Top(labels, k) == labels
  {
    assert labels[..|labels|] == labels;
  }

  lemma LastTerm(log2: nat -> real, labels: seq<int>, grade: int)
    requires IsLog(log2)
    ensures Discounted(log2, Gains(labels + [grade])) == Discounted(log2, Gains(labels)) + Gain(grade) / log2(|labels| + 2)
  {
    var gains := Gains(labels + [grade]);
    var last := |labels|;
    assert gains[..last] == Gains(labels);
    assert gains[last] == Gain(grade);
  }

  /** A ranking of two labels. */
  lemma TwoLabels(log2: nat -> real, first: int, second: int)
    requires IsLog(log2)
    ensures Dcg(log2, [first, second], 2) == Gain(first) / log2(2) + Gain(second) / log2(3)
  {
    OneTerm(log2, first, 2);
    NextTerm(log2, [first], second, 2);
    assert [first] + [second] == [first, second];
  }

  lemma OneTerm(log2: nat -> real, first: int, k: nat)
    requires IsLog(log2) && k > 0
    ensures Dcg(log2, [first], k) == Gain(first) / log2(2)
  {
    var none: seq<int> := [];
    NextTerm(log2, none, first, k);
    assert none + [first] == [first];
  }

  lemma ScoreIsRatio(log2: nat -> real, labels: seq<int>, k: nat, ideal: Option<seq<int>>, n: real, d: real)
    requires IsLog(log2) && k > 0 && n == Dcg(log2, labels, k)
    requires d == Dcg(log2, BestFirst(if ideal.Some? then ideal.value else labels), k)
    ensures NdcgAtK(log2, labels, k, ideal) == if d == 0.0 then Ok(None) else Ok(Some(n / d))
  {
  }

  /** The score: refused for no cutoff, undefined when the best order of the pool has no sum, and
      otherwise what, times that sum, gives the ranking's own. Without a pool the ranking's own
      labels are it, and the best order is the one there is. */
  lemma ScoreExactly(log2: nat -> real, labels: seq<int>, k: int, ideal: Option<seq<int>>, best: seq<int>)
    requires IsLog(log2) && Descending(best)
    requires multiset(best) == multiset(if ideal.Some? then ideal.value else labels)
    ensures NdcgAtK(log2, labels, k, ideal) == Err(NonPositiveK) <==> k <= 0
    ensures k > 0 ==> (NdcgAtK(log2, labels, k, ideal) == Ok(None) <==> Dcg(log2, best, k) == 0.0)
    ensures k > 0 && NdcgAtK(log2, labels, k, ideal) != Ok(None) ==>
              var r := NdcgAtK(log2, labels, k, ideal);
              r.Ok? && r.value.Some? && Times(r.value.value, Dcg(log2, best, k)) == Dcg(log2, labels, k)
  {
    if k > 0 {
      var n, d := Dcg(log2, labels, k), Dcg(log2, best, k);
      DescendingIsUnique(best, BestFirst(if ideal.Some? then ideal.value else labels));
      ScoreIsRatio(log2, labels, k, ideal, n, d);
      if d != 0.0 {
        QuotientTimes(n, d);
      }
    }
  }

  lemma QuotientTimes(n: real, d: real)
    requires d != 0.0
    ensures Times(n / d, d) == n
  {
  }
}
