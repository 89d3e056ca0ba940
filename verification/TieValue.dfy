/** What an item of a group of ties gets, said by which items are before it and which beside it. */
module TieValue {
  import opened RealArith
  import opened Sequences
  import opened Ties
  import opened Ranks
  import opened LengthBaseline

  function PlacesWhere(p: real -> bool, s: seq<real>): set<int> {
    set i | 0 <= i < |s| && p(s[i])
  }

  lemma {:induction false} CountIsPlaces(p: real -> bool, s: seq<real>)
    ensures Count(p, s) == |PlacesWhere(p, s)|
    decreases |s|
  {
    if s == [] {
      assert PlacesWhere(p, s) == {};
    } else {
      var n := |s| - 1;
      CountIsPlaces(p, s[..n]);
      assert PlacesWhere(p, s) == PlacesWhere(p, s[..n]) + if p(s[n]) then {n} else {};
    }
  }

  /** The items with a smaller key than item `i`, and those with its key, itself among them. */
  function Smaller(keys: seq<real>, i: nat): set<int>
    requires i < |keys|
  {
    set j | 0 <= j < |keys| && keys[j] < keys[i]
  }

  function Tied(keys: seq<real>, i: nat): set<int>
    requires i < |keys|
  {
    set j | 0 <= j < |keys| && keys[j] == keys[i]
  }

  lemma CountsArePlaces(keys: seq<real>, i: nat)
    requires i < |keys|
    ensures Less(keys, keys[i]) == |Smaller(keys, i)| && Equal(keys, keys[i]) == |Tied(keys, i)|
    ensures |Tied(keys, i)| >= 1 && |Smaller(keys, i)| + |Tied(keys, i)| <= |keys|
  {
    CountIsPlaces(Below(keys[i]), keys);
    CountIsPlaces(Same(keys[i]), keys);
    assert PlacesWhere(Below(keys[i]), keys) == Smaller(keys, i);
    assert PlacesWhere(Same(keys[i]), keys) == Tied(keys, i);
    CountsFit(keys, keys[i]);
  }

  /** `share`, taken `n` times, is what stands at the `n` places from `lo` on. */
  ghost predicate Pools(avail: seq<real>, lo: nat, n: nat, share: real) {
    n >= 1 && lo + n <= |avail| && Times(share, n as real) == Sum(avail[lo..lo + n])
  }

  lemma AverageTimes(xs: seq<real>)
    requires xs != []
    ensures Times(Average(xs), |xs| as real) == Sum(xs)
  {
  }

  lemma AveragePools(avail: seq<real>, lo: nat, n: nat, share: real)
    requires n >= 1 && lo + n <= |avail| && share == Average(avail[lo..lo + n])
    ensures Pools(avail, lo, n, share)
  {
    AverageTimes(avail[lo..lo + n]);
  }

  /** The items of a group pool what stands at their places, after those with smaller keys. */
  lemma ShareExactly(keys: seq<real>, avail: seq<real>, i: nat)
    requires |avail| == |keys| && i < |keys|
    ensures Pools(avail, |Smaller(keys, i)|, |Tied(keys, i)|, Shares(keys, avail)[i])
  {
    CountsArePlaces(keys, i);
    AveragePools(avail, |Smaller(keys, i)|, |Tied(keys, i)|, Shares(keys, avail)[i]);
  }

  /** Twice a rank counts each item below it twice, each tied with it once, and one. */
  lemma RankExactly(values: seq<real>, i: nat)
    requires i < |values|
    ensures 2.0 * TiedRanks(values)[i] == (2 * |Smaller(values, i)| + |Tied(values, i)| + 1) as real
  {
    CountsArePlaces(values, i);
  }

  /** The answers shorter than answer `i`, and those of its length, itself among them. */
  function Shorter(texts: seq<string>, i: nat): set<int>
    requires i < |texts|
  {
    set j | 0 <= j < |texts| && |texts[j]| < |texts[i]|
  }

  function Alike(texts: seq<string>, i: nat): set<int>
    requires i < |texts|
  {
    set j | 0 <= j < |texts| && |texts[j]| == |texts[i]|
  }

  lemma ByLength(texts: seq<string>, i: nat)
    requires i < |texts|
    ensures Smaller(Lengths(texts), i) == Shorter(texts, i) && Tied(Lengths(texts), i) == Alike(texts, i)
  {
  }

  lemma PredictionsDealt(texts: seq<string>, human: seq<real>, marks: seq<real>)
    requires |texts| == |human| && Ascending(marks) && multiset(marks) == multiset(human)
    ensures |marks| == |texts| && Predictions(texts, human) == Shares(Lengths(texts), marks)
  {
    SortedIsUnique(marks, Sorted(human));
  }

  /** The answers of one length pool the marks at their places in the marks' ascending order,
      after one mark for every shorter answer. */
  lemma PredictionExactly(texts: seq<string>, human: seq<real>, marks: seq<real>, i: nat)
    requires |texts| == |human| && i < |texts| && Ascending(marks) && multiset(marks) == multiset(human)
    ensures |Predictions(texts, human)| == |texts|
    ensures Pools(marks, |Shorter(texts, i)|, |Alike(texts, i)|, Predictions(texts, human)[i])
  {
    PredictionsDealt(texts, human, marks);
    ByLength(texts, i);
    ShareExactly(Lengths(texts), marks, i);
  }
}
