/** Sharing what a group of ties spans: the scheme behind averaged ranks and the length baseline.

    The n values `avail` are dealt out in ascending order of the n keys; items with equal keys
    pool what they span and each takes the average. */
module Ties {
  import opened Sequences

  function Below(v: real): real -> bool {
    x => x < v
  }

  function Same(v: real): real -> bool {
    x => x == v
  }

  /** How many keys are smaller than `v`, and how many equal it. */
  function Less(keys: seq<real>, v: real): nat {
    Count(Below(v), keys)
  }

  function Equal(keys: seq<real>, v: real): nat {
    Count(Same(v), keys)
  }

  lemma {:induction false} CountsFit(keys: seq<real>, v: real)
    ensures Less(keys, v) + Equal(keys, v) <= |keys|
    ensures v in keys ==> Equal(keys, v) >= 1
  {
    if keys != [] {
      CountsFit(keys[..|keys| - 1], v);
    }
  }

  /** The share of an item with key `v`: a closed form in the two counts. */
  function Share(keys: seq<real>, avail: seq<real>, v: real): real
    requires |avail| == |keys|
  {
    CountsFit(keys, v);
    var lo, n := Less(keys, v), Equal(keys, v);
    if n == 0 then 0.0 else Average(avail[lo..lo + n])
  }

  function Shares(keys: seq<real>, avail: seq<real>): (shares: seq<real>)
    requires |avail| == |keys|
    ensures |shares| == |keys| && forall i | 0 <= i < |keys| :: shares[i] == Share(keys, avail, keys[i])
  {
    seq(|keys|, i requires 0 <= i < |keys| => Share(keys, avail, keys[i]))
  }

  // ---------------------------------------------------------------- groups of a sorted sequence

  /** `s[a..b]` is a maximal group of equal keys. */
  ghost predicate IsGroup(s: seq<real>, a: int, b: int) {
    && 0 <= a < b <= |s|
    && (forall p | a <= p < b :: s[p] == s[a])
    && (a == 0 || s[a - 1] < s[a])
    && (b == |s| || s[a] < s[b])
  }

  lemma CountParts(p: real -> bool, front: seq<real>, middle: seq<real>, back: seq<real>)
    ensures Count(p, front + middle + back) == Count(p, front) + Count(p, middle) + Count(p, back)
  {
    CountAppend(p, front + middle, back);
    CountAppend(p, front, middle);
  }

  lemma ThreeParts(s: seq<real>, a: nat, b: nat)
    requires a <= b <= |s|
    ensures s == s[..a] + s[a..b] + s[b..]
  {
  }

  /** Counting a predicate that is constant on each of three stretches. */
  lemma CountStretches(p: real -> bool, s: seq<real>, a: nat, b: nat, front: bool, middle: bool)
    requires a <= b <= |s|
    requires forall i | 0 <= i < a :: p(s[i]) == front
    requires forall i | a <= i < b :: p(s[i]) == middle
    requires forall i | b <= i < |s| :: !p(s[i])
    ensures Count(p, s) == (if front then a else 0) + (if middle then b - a else 0)
  {
    ThreeParts(s, a, b);
    CountParts(p, s[..a], s[a..b], s[b..]);
    CountAll(p, s[..a], front);
    CountAll(p, s[a..b], middle);
    CountAll(p, s[b..], false);
  }

  lemma GroupCounts(s: seq<real>, a: nat, b: nat)
    requires Ascending(s) && IsGroup(s, a, b)
    ensures Less(s, s[a]) == a && Equal(s, s[a]) == b - a
  {
    assert forall i | 0 <= i < a :: s[i] <= s[a - 1];
    assert forall i | b <= i < |s| :: s[b] <= s[i];
    CountStretches(Below(s[a]), s, a, b, true, false);
    CountStretches(Same(s[a]), s, a, b, false, true);
  }

  /** The counts, hence the shares, do not depend on the order of the keys. */
  lemma CountsPermuted(keys: seq<real>, s: seq<real>, v: real)
    requires multiset(keys) == multiset(s)
    ensures Less(keys, v) == Less(s, v) && Equal(keys, v) == Equal(s, v)
    ensures |keys| == |s|
  {
    CountPermuted(Below(v), keys, s);
    CountPermuted(Same(v), keys, s);
    assert |keys| == |multiset(keys)| == |multiset(s)| == |s|;
  }

  lemma ShareOfGroup(keys: seq<real>, avail: seq<real>, s: seq<real>, a: nat, b: nat)
    requires |avail| == |keys| && multiset(keys) == multiset(s) && Ascending(s) && IsGroup(s, a, b) && |s| == |keys|
    ensures Share(keys, avail, s[a]) == Average(avail[a..b])
    ensures Less(keys, s[a]) == a && Equal(keys, s[a]) == b - a
  {
    CountsPermuted(keys, s, s[a]);
    GroupCounts(s, a, b);
  }

  /** The items at places `a` to `b` of the order are all due the same. */
  ghost predicate AllShare(expected: seq<real>, order: seq<nat>, a: nat, b: nat, shared: real) {
    b <= |order| && forall p | a <= p < b :: order[p] < |expected| && expected[order[p]] == shared
  }

  lemma SharesOfGroup(keys: seq<real>, avail: seq<real>, order: seq<nat>, a: nat, b: nat)
    requires |avail| == |keys| && IsPermutation(order, |keys|) && SortedIndices(keys, order)
    requires IsGroup(Gather(keys, order), a, b)
    ensures AllShare(Shares(keys, avail), order, a, b, Average(avail[a..b]))
  {
    var s := Gather(keys, order);
    GatherPermutes(keys, order);
    ShareOfGroup(keys, avail, s, a, b);
    assert forall p | a <= p < b :: keys[order[p]] == s[p] == s[a];
  }

  /** The group containing position `p`. */
  lemma GroupAround(s: seq<real>, p: nat) returns (a: nat, b: nat)
    requires Ascending(s) && p < |s|
    ensures IsGroup(s, a, b) && a <= p < b
  {
    a, b := p, p + 1;
    while a > 0 && s[a - 1] == s[p]
      invariant 0 <= a <= p && forall q | a <= q <= p :: s[q] == s[p]
    {
      a := a - 1;
    }
    while b < |s| && s[b] == s[p]
      invariant p < b <= |s| && forall q | a <= q < b :: s[q] == s[p]
    {
      b := b + 1;
    }
  }

  // ---------------------------------------------------------------- conservation

  function ShareOf(keys: seq<real>, avail: seq<real>): real -> real
    requires |avail| == |keys|
  {
    v => Share(keys, avail, v)
  }

  lemma PooledSum(xs: seq<real>, ys: seq<real>)
    requires |xs| == |ys| > 0 && forall i | 0 <= i < |xs| :: xs[i] == Average(ys)
    ensures Sum(xs) == Sum(ys)
  {
    SumConstant(xs, Average(ys));
  }

  lemma GroupConserved(keys: seq<real>, avail: seq<real>, s: seq<real>, a: nat, b: nat)
    requires |avail| == |keys| == |s| && multiset(keys) == multiset(s) && Ascending(s) && IsGroup(s, a, b)
    ensures Sum(Map(ShareOf(keys, avail), s)[a..b]) == Sum(avail[a..b])
  {
    var share := Share(keys, avail, s[a]);
    assert share == Average(avail[a..b]) by {
      ShareOfGroup(keys, avail, s, a, b);
    }
    var shares := Map(ShareOf(keys, avail), s);
    forall p | a <= p < b ensures shares[p] == share {
      assert s[p] == s[a];
    }
    PooledSum(shares[a..b], avail[a..b]);
  }

  /** Up to any group boundary the shares of the sorted keys add up to what was dealt out. */
  lemma {:induction false} PrefixConserved(keys: seq<real>, avail: seq<real>, s: seq<real>, p: nat)
    requires |avail| == |keys| == |s| && multiset(keys) == multiset(s) && Ascending(s)
    requires p <= |s| && (p == 0 || p == |s| || s[p - 1] < s[p])
    ensures Sum(Map(ShareOf(keys, avail), s)[..p]) == Sum(avail[..p])
    decreases p
  {
    if p > 0 {
      var a, b := GroupAround(s, p - 1);
      assert b == p;
      PrefixConserved(keys, avail, s, a);
      GroupConserved(keys, avail, s, a, b);
      PrefixSum(Map(ShareOf(keys, avail), s), a, b);
      PrefixSum(avail, a, b);
    }
  }

  lemma PrefixSum(xs: seq<real>, a: nat, b: nat)
    requires a <= b <= |xs|
    ensures Sum(xs[..b]) == Sum(xs[..a]) + Sum(xs[a..b])
  {
    assert xs[..b] == xs[..a] + xs[a..b];
    SumAppend(xs[..a], xs[a..b]);
  }

  lemma SortedConserved(keys: seq<real>, avail: seq<real>, s: seq<real>)
    requires |avail| == |keys| == |s| && multiset(keys) == multiset(s) && Ascending(s)
    ensures Sum(Map(ShareOf(keys, avail), s)) == Sum(avail)
  {
    PrefixConserved(keys, avail, s, |s|);
    WholePrefix(Map(ShareOf(keys, avail), s));
    WholePrefix(avail);
  }

  lemma WholePrefix(xs: seq<real>)
    ensures xs[..|xs|] == xs
  {
  }

  lemma SharesAreMapped(keys: seq<real>, avail: seq<real>)
    requires |avail| == |keys|
    ensures Shares(keys, avail) == Map(ShareOf(keys, avail), keys)
  {
  }

  /** Nothing is lost or invented: the shares sum to what was dealt out. */
  lemma SharesConserve(keys: seq<real>, avail: seq<real>)
    requires |avail| == |keys|
    ensures Sum(Shares(keys, avail)) == Sum(avail)
  {
    var f := ShareOf(keys, avail);
    SortedConserved(keys, avail, Sorted(keys));
    MapPermuted(f, keys, Sorted(keys));
    SumPermuted(Map(f, keys), Map(f, Sorted(keys)));
    SharesAreMapped(keys, avail);
  }

  // ---------------------------------------------------------------- order

  lemma {:induction false} SumBounds(xs: seq<real>, lo: real, hi: real)
    requires forall i | 0 <= i < |xs| :: lo <= xs[i] <= hi
    ensures lo * |xs| as real <= Sum(xs) <= hi * |xs| as real
  {
    if xs != [] {
      SumBounds(xs[..|xs| - 1], lo, hi);
      assert lo * |xs| as real == lo * (|xs| - 1) as real + lo;
      assert hi * |xs| as real == hi * (|xs| - 1) as real + hi;
    }
  }

  lemma AverageBounds(xs: seq<real>, lo: real, hi: real)
    requires xs != [] && forall i | 0 <= i < |xs| :: lo <= xs[i] <= hi
    ensures lo <= Average(xs) <= hi
  {
    SumBounds(xs, lo, hi);
    assert Average(xs) * |xs| as real == Sum(xs);
  }

  /** A key's share lies between the ends of what its group spans. */
  lemma ShareBounds(keys: seq<real>, avail: seq<real>, i: nat)
    requires |avail| == |keys| && Ascending(avail) && i < |keys|
    ensures Less(keys, keys[i]) + Equal(keys, keys[i]) <= |keys| && Equal(keys, keys[i]) >= 1
    ensures avail[Less(keys, keys[i])] <= Share(keys, avail, keys[i])
              <= avail[Less(keys, keys[i]) + Equal(keys, keys[i]) - 1]
  {
    CountsFit(keys, keys[i]);
    var lo, n := Less(keys, keys[i]), Equal(keys, keys[i]);
    AverageBounds(avail[lo..lo + n], avail[lo], avail[lo + n - 1]);
  }

  lemma {:induction false} SmallerFitsBelow(keys: seq<real>, u: real, v: real)
    requires u < v
    ensures Less(keys, u) + Equal(keys, u) <= Less(keys, v)
  {
    if keys != [] {
      SmallerFitsBelow(keys[..|keys| - 1], u, v);
    }
  }

  /** A larger key never gets a smaller share, and a strictly larger one when no two of the
      values dealt out are equal; equal keys get equal shares. */
  lemma SharesFollowKeys(keys: seq<real>, avail: seq<real>, i: nat, j: nat)
    requires |avail| == |keys| && Ascending(avail) && i < |keys| && j < |keys|
    ensures keys[i] == keys[j] ==> Shares(keys, avail)[i] == Shares(keys, avail)[j]
    ensures keys[i] <= keys[j] ==> Shares(keys, avail)[i] <= Shares(keys, avail)[j]
    ensures keys[i] < keys[j] && (forall a, b | 0 <= a < b < |avail| :: avail[a] < avail[b]) ==>
              Shares(keys, avail)[i] < Shares(keys, avail)[j]
  {
    ShareBounds(keys, avail, i);
    ShareBounds(keys, avail, j);
    if keys[i] < keys[j] {
      SmallerFitsBelow(keys, keys[i], keys[j]);
    }
  }

  /** Rearranging the items rearranges their shares and nothing else. */
  lemma SharesRearrange(keys: seq<real>, avail: seq<real>, order: seq<nat>)
    requires |avail| == |keys| && IsPermutation(order, |keys|)
    ensures Shares(Gather(keys, order), avail) == Gather(Shares(keys, avail), order)
  {
    var moved := Gather(keys, order);
    GatherPermutes(keys, order);
    forall p | 0 <= p < |order| ensures Shares(moved, avail)[p] == Gather(Shares(keys, avail), order)[p] {
      CountsPermuted(keys, moved, moved[p]);
    }
  }

  /** In sorted order, an item without ties takes exactly the value at its place. */
  lemma LoneShare(keys: seq<real>, avail: seq<real>, s: seq<real>, p: nat)
    requires |avail| == |keys| == |s| && multiset(keys) == multiset(s) && Ascending(s) && p < |s|
    requires forall q | 0 <= q < |s| && q != p :: s[q] != s[p]
    ensures Less(keys, s[p]) == p && Share(keys, avail, s[p]) == avail[p]
  {
    assert IsGroup(s, p, p + 1);
    ShareOfGroup(keys, avail, s, p, p + 1);
    assert avail[p..p + 1] == [avail[p]];
    SumConstant([avail[p]], avail[p]);
  }

  /** Without ties the shares are the values dealt out, each exactly once. */
  lemma SharesOfDistinct(keys: seq<real>, avail: seq<real>)
    requires |avail| == |keys| && forall i, j | 0 <= i < j < |keys| :: keys[i] != keys[j]
    ensures multiset(Shares(keys, avail)) == multiset(avail)
    ensures forall i | 0 <= i < |keys| :: Less(keys, keys[i]) < |keys| && Shares(keys, avail)[i] == avail[Less(keys, keys[i])]
  {
    var order := ArgSort(keys);
    var s := Gather(keys, order);
    GatherPermutes(keys, order);
    var f := ShareOf(keys, avail);
    forall p | 0 <= p < |s| ensures Less(keys, s[p]) == p && Map(f, s)[p] == avail[p] {
      forall q | 0 <= q < |s| && q != p ensures s[q] != s[p] {
        assert order[q] != order[p];
      }
      LoneShare(keys, avail, s, p);
    }
    assert Map(f, s) == avail;
    MapPermuted(f, keys, s);
    SharesAreMapped(keys, avail);
    forall i | 0 <= i < |keys| ensures Less(keys, keys[i]) < |keys| && Shares(keys, avail)[i] == avail[Less(keys, keys[i])] {
      assert i in order;
      var p :| 0 <= p < |order| && order[p] == i;
      assert s[p] == keys[i] && Map(f, s)[p] == avail[p];
    }
  }

  // ---------------------------------------------------------------- steps of the group scan

  /** The scan has reached the start of a run of equal keys, or the end. */
  ghost predicate StartsGroup(keys: seq<real>, order: seq<nat>, position: int) {
    && SortedIndices(keys, order)
    && 0 <= position <= |order|
    && (0 < position < |order| ==> keys[order[position - 1]] < keys[order[position]])
  }

  /** The last place of the run of equal keys that starts at `position`. */
  method GroupEnd(keys: seq<real>, order: seq<nat>, position: nat) returns (end: nat)
    requires StartsGroup(keys, order, position) && position < |order|
    ensures position <= end < |order| && IsGroup(Gather(keys, order), position, end + 1)
  {
    end := position;
    while end + 1 < |order| && keys[order[end + 1]] == keys[order[position]]
      invariant position <= end < |order|
      invariant forall q | position <= q <= end :: keys[order[q]] == keys[order[position]]
    {
      end := end + 1;
    }
  }

  lemma NextGroup(keys: seq<real>, order: seq<nat>, a: nat, b: nat)
    requires SortedIndices(keys, order) && IsGroup(Gather(keys, order), a, b)
    ensures StartsGroup(keys, order, b)
  {
    var s := Gather(keys, order);
    assert s[b - 1] == s[a];
  }

  /** The first `n` items in `order` have what is expected. */
  ghost predicate Dealt(xs: seq<real>, order: seq<nat>, expected: seq<real>, n: nat) {
    && |expected| == |xs| && IsPermutation(order, |xs|) && n <= |order|
    && forall p | 0 <= p < n :: xs[order[p]] == expected[order[p]]
  }

  /** Gives every item of `order[from..to]` the same share, and nobody else anything. */
  method FillGroup(a: array<real>, order: seq<nat>, from: nat, to: nat, shared: real, ghost expected: seq<real>)
    requires from <= to <= |order| && Dealt(a[..], order, expected, from)
    requires AllShare(expected, order, from, to, shared)
    modifies a
    ensures Dealt(a[..], order, expected, to)
  {
    for index := from to to
      invariant Dealt(a[..], order, expected, index)
    {
      ghost var before := a[..];
      a[order[index]] := shared;
      assert a[..] == before[order[index] := shared];
      DealtNext(before, order, expected, index, shared);
    }
  }

  lemma DealtNext(xs: seq<real>, order: seq<nat>, expected: seq<real>, n: nat, shared: real)
    requires Dealt(xs, order, expected, n) && n < |order| && expected[order[n]] == shared
    ensures Dealt(xs[order[n] := shared], order, expected, n + 1)
  {
  }

  /** Agreement along a permutation is agreement everywhere. */
  lemma DealtAll(xs: seq<real>, order: seq<nat>, expected: seq<real>)
    requires Dealt(xs, order, expected, |order|)
    ensures xs == expected
  {
    forall i | 0 <= i < |xs| ensures xs[i] == expected[i] {
      assert i in order;
    }
  }
}
