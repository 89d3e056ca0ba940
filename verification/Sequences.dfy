/** Sums, counts and sorting of sequences of numbers. Floats are modelled as reals. */
module Sequences {

  function Sum(xs: seq<real>): real {
    if xs == [] then 0.0 else Sum(xs[..|xs| - 1]) + xs[|xs| - 1]
  }

  function Average(xs: seq<real>): real
    requires xs != []
  {
    Sum(xs) / |xs| as real
  }

  function Map(f: real -> real, xs: seq<real>): (ys: seq<real>)
    ensures |ys| == |xs| && forall i | 0 <= i < |xs| :: ys[i] == f(xs[i])
  {
    seq(|xs|, i requires 0 <= i < |xs| => f(xs[i]))
  }

  function Count(p: real -> bool, xs: seq<real>): (n: nat)
    ensures n <= |xs|
  {
    if xs == [] then 0 else Count(p, xs[..|xs| - 1]) + if p(xs[|xs| - 1]) then 1 else 0
  }

  lemma {:induction false} SumAppend(xs: seq<real>, ys: seq<real>)
    ensures Sum(xs + ys) == Sum(xs) + Sum(ys)
    decreases |ys|
  {
    if ys == [] {
      assert xs + ys == xs;
    } else {
      assert (xs + ys)[..|xs + ys| - 1] == xs + ys[..|ys| - 1];
      SumAppend(xs, ys[..|ys| - 1]);
    }
  }

  lemma SumSplit(xs: seq<real>, k: nat)
    requires k <= |xs|
    ensures Sum(xs) == Sum(xs[..k]) + Sum(xs[k..])
  {
    assert xs == xs[..k] + xs[k..];
    SumAppend(xs[..k], xs[k..]);
  }

  lemma {:induction false} SumConstant(xs: seq<real>, c: real)
    requires forall i | 0 <= i < |xs| :: xs[i] == c
    ensures Sum(xs) == c * |xs| as real
  {
    if xs != [] {
      SumConstant(xs[..|xs| - 1], c);
      assert c * |xs| as real == c * (|xs| - 1) as real + c;
    }
  }

  lemma {:induction false} CountAppend(p: real -> bool, xs: seq<real>, ys: seq<real>)
    ensures Count(p, xs + ys) == Count(p, xs) + Count(p, ys)
    decreases |ys|
  {
    if ys == [] {
      assert xs + ys == xs;
    } else {
      assert (xs + ys)[..|xs + ys| - 1] == xs + ys[..|ys| - 1];
      CountAppend(p, xs, ys[..|ys| - 1]);
    }
  }

  lemma {:induction false} CountAll(p: real -> bool, xs: seq<real>, b: bool)
    requires forall i | 0 <= i < |xs| :: p(xs[i]) == b
    ensures Count(p, xs) == if b then |xs| else 0
  {
    if xs != [] {
      CountAll(p, xs[..|xs| - 1], b);
    }
  }

  // ---------------------------------------------------------------- what does not depend on order

  function Without<T>(xs: seq<T>, i: nat): (ys: seq<T>)
    requires i < |xs|
    ensures |ys| == |xs| - 1
  {
    xs[..i] + xs[i + 1..]
  }

  lemma WithoutMultiset<T>(xs: seq<T>, i: nat)
    requires i < |xs|
    ensures multiset(xs) == multiset(Without(xs, i)) + multiset{xs[i]}
  {
    assert xs == xs[..i] + [xs[i]] + xs[i + 1..];
  }

  lemma LastSplit<T>(xs: seq<T>)
    requires xs != []
    ensures xs == xs[..|xs| - 1] + [xs[|xs| - 1]]
    ensures multiset(xs) == multiset(xs[..|xs| - 1]) + multiset{xs[|xs| - 1]}
  {
    assert xs == xs[..|xs| - 1] + [xs[|xs| - 1]];
  }

  /** Position of the last element of `xs` in a rearrangement `ys`. */
  lemma MatchLast<T>(xs: seq<T>, ys: seq<T>) returns (j: nat)
    requires xs != [] && multiset(xs) == multiset(ys)
    ensures j < |ys| && ys[j] == xs[|xs| - 1] && multiset(xs[..|xs| - 1]) == multiset(Without(ys, j))
  {
    var last := xs[|xs| - 1];
    LastSplit(xs);
    assert last in multiset(ys);
    j :| 0 <= j < |ys| && ys[j] == last;
    WithoutMultiset(ys, j);
    SameRest(multiset(xs[..|xs| - 1]), multiset(Without(ys, j)), last);
  }

  lemma SameRest<T>(a: multiset<T>, b: multiset<T>, x: T)
    requires a + multiset{x} == b + multiset{x}
    ensures a == b
  {
    assert a == (a + multiset{x}) - multiset{x};
    assert b == (b + multiset{x}) - multiset{x};
  }

  lemma {:induction false} SumPermuted(xs: seq<real>, ys: seq<real>)
    requires multiset(xs) == multiset(ys)
    ensures Sum(xs) == Sum(ys)
    decreases |xs|
  {
    if xs == [] {
      assert |multiset(ys)| == 0;
    } else {
      var j := MatchLast(xs, ys);
      SumPermuted(xs[..|xs| - 1], Without(ys, j));
      SumAppend(ys[..j], ys[j + 1..]);
      SumSplit(ys, j + 1);
      assert ys[..j + 1][..j] == ys[..j];
    }
  }

  lemma {:induction false} CountPermuted(p: real -> bool, xs: seq<real>, ys: seq<real>)
    requires multiset(xs) == multiset(ys)
    ensures Count(p, xs) == Count(p, ys)
    decreases |xs|
  {
    if xs == [] {
      assert |multiset(ys)| == 0;
    } else {
      var j := MatchLast(xs, ys);
      CountPermuted(p, xs[..|xs| - 1], Without(ys, j));
      CountAppend(p, ys[..j], ys[j + 1..]);
      assert ys == ys[..j + 1] + ys[j + 1..];
      CountAppend(p, ys[..j + 1], ys[j + 1..]);
      assert ys[..j + 1][..j] == ys[..j];
    }
  }

  lemma {:induction false} MapPermuted(f: real -> real, xs: seq<real>, ys: seq<real>)
    requires multiset(xs) == multiset(ys)
    ensures multiset(Map(f, xs)) == multiset(Map(f, ys))
    decreases |xs|
  {
    if xs == [] {
      assert |multiset(ys)| == 0;
    } else {
      var last := |xs| - 1;
      var j := MatchLast(xs, ys);
      MapPermuted(f, xs[..last], Without(ys, j));
      assert Map(f, xs) == Map(f, xs[..last]) + [f(xs[last])];
      assert Without(Map(f, ys), j) == Map(f, Without(ys, j));
      WithoutMultiset(Map(f, ys), j);
    }
  }

  // ---------------------------------------------------------------- reordering

  predicate IsPermutation(order: seq<nat>, n: nat) {
    && |order| == n
    && (forall p | 0 <= p < n :: order[p] < n)
    && (forall p, q | 0 <= p < q < n :: order[p] != order[q])
    && (forall i | 0 <= i < n :: i in order)
  }

  function Gather<T>(xs: seq<T>, order: seq<nat>): (ys: seq<T>)
    requires forall p | 0 <= p < |order| :: order[p] < |xs|
    ensures |ys| == |order| && forall p | 0 <= p < |order| :: ys[p] == xs[order[p]]
  {
    seq(|order|, p requires 0 <= p < |order| => xs[order[p]])
  }

  /** Dropping the largest index from a permutation. */
  lemma PermutationWithout(order: seq<nat>, n: nat, p: nat)
    requires IsPermutation(order, n + 1) && p <= n && order[p] == n
    ensures IsPermutation(Without(order, p), n)
  {
    var rest := Without(order, p);
    assert forall q | 0 <= q < p :: rest[q] == order[q];
    assert forall q | p <= q < n :: rest[q] == order[q + 1];
    forall i | 0 <= i < n ensures i in rest {
      assert i in order;
      var q :| 0 <= q < |order| && order[q] == i;
      assert rest[if q < p then q else q - 1] == i;
    }
  }

  lemma GatherWithout<T>(xs: seq<T>, order: seq<nat>, p: nat)
    requires IsPermutation(order, |xs|) && p < |xs| && order[p] == |xs| - 1
    ensures IsPermutation(Without(order, p), |xs| - 1)
    ensures Without(Gather(xs, order), p) == Gather(xs[..|xs| - 1], Without(order, p))
  {
    PermutationWithout(order, |xs| - 1, p);
    var a, b := Without(Gather(xs, order), p), Gather(xs[..|xs| - 1], Without(order, p));
    forall q | 0 <= q < |xs| - 1 ensures a[q] == b[q] {
      assert Without(order, p)[q] == order[if q < p then q else q + 1];
    }
  }

  lemma {:induction false} GatherPermutes<T>(xs: seq<T>, order: seq<nat>)
    requires IsPermutation(order, |xs|)
    ensures multiset(Gather(xs, order)) == multiset(xs)
    decreases |xs|
  {
    if xs != [] {
      var last := |xs| - 1;
      assert last in order;
      var p :| 0 <= p < |order| && order[p] == last;
      var gathered, rest := Gather(xs, order), xs[..last];
      GatherWithout(xs, order, p);
      GatherPermutes(rest, Without(order, p));
      WithoutMultiset(gathered, p);
      assert gathered[p] == xs[last];
      LastSplit(xs);
    }
  }

  predicate Ascending(xs: seq<real>) {
    forall i, j | 0 <= i < j < |xs| :: xs[i] <= xs[j]
  }

  /** The values in ascending order, as the built-in sort returns them. */
  function Sorted(xs: seq<real>): (ys: seq<real>)
    ensures Ascending(ys) && multiset(ys) == multiset(xs) && |ys| == |xs|
  {
    if xs == [] then []
    else
      assert xs == xs[..|xs| - 1] + [xs[|xs| - 1]];
      InsertValue(Sorted(xs[..|xs| - 1]), xs[|xs| - 1])
  }

  function InsertValue(ys: seq<real>, x: real): (zs: seq<real>)
    requires Ascending(ys)
    ensures Ascending(zs) && multiset(zs) == multiset(ys) + multiset{x} && |zs| == |ys| + 1
  {
    if ys == [] || ys[|ys| - 1] <= x then ys + [x]
    else
      var last := ys[|ys| - 1];
      assert ys == ys[..|ys| - 1] + [last];
      var front := InsertValue(ys[..|ys| - 1], x);
      MembersBelow(ys, front, x);
      front + [last]
  }

  lemma MembersBelow(ys: seq<real>, front: seq<real>, x: real)
    requires ys != [] && Ascending(ys) && x < ys[|ys| - 1]
    requires multiset(front) == multiset(ys[..|ys| - 1]) + multiset{x}
    ensures forall i | 0 <= i < |front| :: front[i] <= ys[|ys| - 1]
  {
    forall i | 0 <= i < |front| ensures front[i] <= ys[|ys| - 1] {
      assert front[i] in multiset(front);
      if front[i] != x {
        assert front[i] in multiset(ys[..|ys| - 1]);
      }
    }
  }

  lemma LastIsLargest(xs: seq<real>, x: real)
    requires Ascending(xs) && x in multiset(xs)
    ensures x <= xs[|xs| - 1]
  {
    var i :| 0 <= i < |xs| && xs[i] == x;
  }

  lemma DropSameLast<T>(xs: seq<T>, ys: seq<T>)
    requires xs != [] && ys != [] && multiset(xs) == multiset(ys) && xs[|xs| - 1] == ys[|ys| - 1]
    ensures multiset(xs[..|xs| - 1]) == multiset(ys[..|ys| - 1])
  {
    assert xs == xs[..|xs| - 1] + [xs[|xs| - 1]] && ys == ys[..|ys| - 1] + [ys[|ys| - 1]];
    assert multiset(xs[..|xs| - 1]) == multiset(xs) - multiset{xs[|xs| - 1]};
    assert multiset(ys[..|ys| - 1]) == multiset(ys) - multiset{ys[|ys| - 1]};
  }

  lemma SameLength<T>(xs: seq<T>, ys: seq<T>)
    requires multiset(xs) == multiset(ys)
    ensures |xs| == |ys|
  {
    assert |xs| == |multiset(xs)| == |multiset(ys)| == |ys|;
  }

  lemma SameLargest(xs: seq<real>, ys: seq<real>)
    requires Ascending(xs) && Ascending(ys) && multiset(xs) == multiset(ys) && xs != [] && ys != []
    ensures xs[|xs| - 1] == ys[|ys| - 1]
  {
    assert xs[|xs| - 1] in multiset(xs) && ys[|ys| - 1] in multiset(ys);
    LastIsLargest(ys, xs[|xs| - 1]);
    LastIsLargest(xs, ys[|ys| - 1]);
  }

  lemma {:induction false} SortedIsUnique(xs: seq<real>, ys: seq<real>)
    requires Ascending(xs) && Ascending(ys) && multiset(xs) == multiset(ys)
    ensures xs == ys
    decreases |xs|
  {
    SameLength(xs, ys);
    if xs != [] {
      SameLargest(xs, ys);
      DropSameLast(xs, ys);
      SortedIsUnique(xs[..|xs| - 1], ys[..|ys| - 1]);
      assert xs == xs[..|xs| - 1] + [xs[|xs| - 1]] && ys == ys[..|ys| - 1] + [ys[|ys| - 1]];
    }
  }

  /** The indices in ascending order of their keys, ties in order of index: a stable sort of
      `range(n)` by key. */
  function ArgSort(keys: seq<real>): (order: seq<nat>)
    ensures IsPermutation(order, |keys|) && SortedIndices(keys, order)
    decreases |keys|
  {
    if keys == [] then []
    else
      var n := |keys| - 1;
      var order := ArgSort(keys[..n]);
      InsertIndexSorts(keys, order, n);
      InsertIndex(keys, order, n)
  }

  function InsertIndex(keys: seq<real>, order: seq<nat>, n: nat): (longer: seq<nat>)
    requires n < |keys| && forall p | 0 <= p < |order| :: order[p] < |keys|
    ensures |longer| == |order| + 1
    ensures forall i :: i in longer <==> i in order || i == n
    decreases |order|
  {
    if order == [] || keys[order[|order| - 1]] <= keys[n] then order + [n]
    else
      assert order == order[..|order| - 1] + [order[|order| - 1]];
      InsertIndex(keys, order[..|order| - 1], n) + [order[|order| - 1]]
  }

  predicate SortedIndices(keys: seq<real>, order: seq<nat>) {
    && (forall p | 0 <= p < |order| :: order[p] < |keys|)
    && (forall p, q | 0 <= p < q < |order| :: order[p] != order[q] && keys[order[p]] <= keys[order[q]])
  }

  lemma AppendIndex(keys: seq<real>, front: seq<nat>, last: nat)
    requires SortedIndices(keys, front) && last < |keys|
    requires forall p | 0 <= p < |front| :: front[p] != last && keys[front[p]] <= keys[last]
    ensures SortedIndices(keys, front + [last])
  {
  }

  lemma {:induction false} InsertIndexSorts(keys: seq<real>, order: seq<nat>, n: nat)
    requires n < |keys| && n !in order && SortedIndices(keys, order)
    ensures SortedIndices(keys, InsertIndex(keys, order, n))
    decreases |order|
  {
    if order == [] || keys[order[|order| - 1]] <= keys[n] {
      AppendIndex(keys, order, n);
    } else {
      var last := order[|order| - 1];
      var init := order[..|order| - 1];
      InsertIndexSorts(keys, init, n);
      var front := InsertIndex(keys, init, n);
      forall p | 0 <= p < |front| ensures front[p] != last && keys[front[p]] <= keys[last] {
        assert front[p] in front;
      }
      AppendIndex(keys, front, last);
    }
  }
}
