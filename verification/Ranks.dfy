/** Averaged ranks: the group scan behind the rank correlation. */
module Ranks {
  import opened Sequences
  import opened Ties
  import opened RealArith

  /** The rank of a value: those below it, plus the middle of those equal to it. */
  function Rank(values: seq<real>, v: real): real {
    Less(values, v) as real + (Equal(values, v) + 1) as real / 2.0
  }

  function TiedRanks(values: seq<real>): (ranks: seq<real>)
    ensures |ranks| == |values| && forall i | 0 <= i < |values| :: ranks[i] == Rank(values, values[i])
  {
    seq(|values|, i requires 0 <= i < |values| => Rank(values, values[i]))
  }

  lemma RankOfGroup(values: seq<real>, order: seq<nat>, a: nat, b: nat)
    requires IsPermutation(order, |values|) && SortedIndices(values, order)
    requires IsGroup(Gather(values, order), a, b)
    ensures AllShare(TiedRanks(values), order, a, b, (a + (b - 1)) as real / 2.0 + 1.0)
  {
    var s := Gather(values, order);
    GatherPermutes(values, order);
    CountsPermuted(values, s, s[a]);
    GroupCounts(s, a, b);
    assert forall p | a <= p < b :: values[order[p]] == s[p] == s[a];
  }

  /** Sort the indices, find each run of equal values, and give the run its average place. */
  method ComputeTiedRanks(values: seq<real>) returns (result: seq<real>)
    ensures result == TiedRanks(values)
  {
    var order := ArgSort(values);
    var ranks := new real[|values|](_ => 0.0);
    var position := 0;
    while position < |order|
      invariant StartsGroup(values, order, position)
      invariant Dealt(ranks[..], order, TiedRanks(values), position)
    {
      position := RankGroup(ranks, values, order, position, TiedRanks(values));
    }
    result := ranks[..];
    DealtAll(result, order, TiedRanks(values));
  }

  /** One round of the scan: the run of equal values at `position` gets its average place. */
  method RankGroup(ranks: array<real>, values: seq<real>, order: seq<nat>, position: nat, ghost expected: seq<real>)
    returns (next: nat)
    requires StartsGroup(values, order, position) && position < |order|
    requires expected == TiedRanks(values) && Dealt(ranks[..], order, expected, position)
    modifies ranks
    ensures next > position && StartsGroup(values, order, next)
    ensures Dealt(ranks[..], order, expected, next)
  {
    var end := GroupEnd(values, order, position);
    next := end + 1;
    NextGroup(values, order, position, next);
    RankOfGroup(values, order, position, next);
    var shared := (position + end) as real / 2.0 + 1.0;
    FillGroup(ranks, order, position, next, shared, expected);
  }

  // ---------------------------------------------------------------- ranks are shares of 1..n

  function Places(n: nat): (places: seq<real>)
    ensures |places| == n && forall i | 0 <= i < n :: places[i] == (i + 1) as real
  {
    seq(n, i requires 0 <= i < n => (i + 1) as real)
  }

  /** Twice the sum of the places a + 1 to b. */
  function TwicePlaces(a: nat, b: nat): int
    decreases b
  {
    if b <= a then 0 else TwicePlaces(a, b - 1) + 2 * b
  }

  lemma {:induction false} SumOfPlaces(n: nat, a: nat, b: nat)
    requires a <= b <= n
    ensures 2.0 * Sum(Places(n)[a..b]) == TwicePlaces(a, b) as real
    decreases b
  {
    if a < b {
      var span := Places(n)[a..b];
      SumOfPlaces(n, a, b - 1);
      assert span[..b - a - 1] == Places(n)[a..b - 1];
      assert span[b - a - 1] == b as real;
    }
  }

  /** The next place, in the closed form. */
  lemma NextPlace(k: int, m: int)
    ensures (k + 1) * (m + 1) == k * m + (k + m + 1)
  {
  }

  lemma {:induction false} TwicePlacesClosed(a: nat, b: nat)
    requires a <= b
    ensures TwicePlaces(a, b) == (b - a) * (a + b + 1)
    decreases b
  {
    if a < b {
      TwicePlacesClosed(a, b - 1);
      NextPlace(b - 1 - a, a + b);
    }
  }

  lemma HalfProduct(total: real, k: int, m: int)
    requires k > 0 && 2.0 * total == (k * m) as real
    ensures total / k as real == m as real / 2.0
  {
    assert (k * m) as real == k as real * m as real;
    DivideLe(total, m as real / 2.0, k as real);
  }

  lemma AveragePlace(n: nat, a: nat, b: nat)
    requires a < b <= n
    ensures Average(Places(n)[a..b]) == (a + b + 1) as real / 2.0
  {
    SumOfPlaces(n, a, b);
    TwicePlacesClosed(a, b);
    HalfProduct(Sum(Places(n)[a..b]), b - a, a + b + 1);
  }

  lemma RanksAreShares(values: seq<real>)
    ensures TiedRanks(values) == Shares(values, Places(|values|))
  {
    var n := |values|;
    forall i | 0 <= i < n ensures TiedRanks(values)[i] == Shares(values, Places(n))[i] {
      CountsFit(values, values[i]);
      var a, k := Less(values, values[i]), Equal(values, values[i]);
      AveragePlace(n, a, a + k);
    }
  }

  /** The ranks of n values always sum to n(n + 1)/2. */
  lemma RanksSum(values: seq<real>)
    ensures 2.0 * Sum(TiedRanks(values)) == (|values| * (|values| + 1)) as real
  {
    RanksAreShares(values);
    SharesConserve(values, Places(|values|));
    SumOfPlaces(|values|, 0, |values|);
    TwicePlacesClosed(0, |values|);
    assert Places(|values|)[0..|values|] == Places(|values|);
  }

  /** Ranks respect the order of the values exactly: ties tie, and nothing else does. */
  lemma RanksFollowValues(values: seq<real>, i: nat, j: nat)
    requires i < |values| && j < |values|
    ensures values[i] < values[j] <==> TiedRanks(values)[i] < TiedRanks(values)[j]
    ensures values[i] == values[j] <==> TiedRanks(values)[i] == TiedRanks(values)[j]
  {
    RanksAreShares(values);
    SharesFollowKeys(values, Places(|values|), i, j);
    SharesFollowKeys(values, Places(|values|), j, i);
  }

  /** Presenting the values in another order presents the same ranks in that order. */
  lemma RanksRearrange(values: seq<real>, order: seq<nat>)
    requires IsPermutation(order, |values|)
    ensures TiedRanks(Gather(values, order)) == Gather(TiedRanks(values), order)
  {
    RanksAreShares(values);
    RanksAreShares(Gather(values, order));
    SharesRearrange(values, Places(|values|), order);
  }

  /** Two sequences order their positions alike. */
  ghost predicate SameOrder(xs: seq<real>, ys: seq<real>) {
    |xs| == |ys| && forall i, j | 0 <= i < |xs| && 0 <= j < |xs| :: xs[i] < xs[j] <==> ys[i] < ys[j]
  }

  lemma {:induction false} CountsFromOrder(xs: seq<real>, ys: seq<real>, x: real, y: real)
    requires |xs| == |ys|
    requires forall i | 0 <= i < |xs| :: (xs[i] < x <==> ys[i] < y) && (xs[i] == x <==> ys[i] == y)
    ensures Less(xs, x) == Less(ys, y) && Equal(xs, x) == Equal(ys, y)
  {
    if xs != [] {
      CountsFromOrder(xs[..|xs| - 1], ys[..|ys| - 1], x, y);
    }
  }

  /** Ranks depend on the order of the values and on nothing else about them. */
  lemma RanksOnlySeeOrder(xs: seq<real>, ys: seq<real>)
    requires |xs| == |ys|
    ensures SameOrder(xs, ys) <==> TiedRanks(xs) == TiedRanks(ys)
  {
    if SameOrder(xs, ys) {
      forall i | 0 <= i < |xs| ensures TiedRanks(xs)[i] == TiedRanks(ys)[i] {
        CountsFromOrder(xs, ys, xs[i], ys[i]);
      }
    }
    if TiedRanks(xs) == TiedRanks(ys) {
      forall i, j | 0 <= i < |xs| && 0 <= j < |xs| ensures xs[i] < xs[j] <==> ys[i] < ys[j] {
        RanksFollowValues(xs, i, j);
        RanksFollowValues(ys, i, j);
      }
    }
  }
}
