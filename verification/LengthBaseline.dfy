/** The length baseline: answers ranked by length, the ranks mapped onto the human marks. */
module LengthBaseline {
  import opened Prelude
  import opened Sequences
  import opened Ties

  datatype ValueError = LengthMismatch

  function Lengths(texts: seq<string>): (lengths: seq<real>)
    ensures |lengths| == |texts| && forall i | 0 <= i < |texts| :: lengths[i] == |texts[i]| as real
  {
    seq(|texts|, i requires 0 <= i < |texts| => |texts[i]| as real)
  }

  /** The longest answer takes the highest mark awarded, and so on down; ties share. */
  function Predictions(texts: seq<string>, human: seq<real>): seq<real>
    requires |texts| == |human|
  {
    Shares(Lengths(texts), Sorted(human))
  }

  method PredictByLength(texts: seq<string>, human: seq<real>) returns (r: Result<seq<real>, ValueError>)
    ensures r == if |texts| == |human| then Ok(Predictions(texts, human)) else Err(LengthMismatch)
  {
    if |texts| != |human| {
      return Err(LengthMismatch);
    }
    if texts == [] {
      return Ok([]);
    }
    var predicted := DealOut(Lengths(texts), Sorted(human));
    r := Ok(predicted);
  }

  /** The scan: sort the indices, and give each run of equal lengths the average of the marks
      it spans. */
  method DealOut(lengths: seq<real>, available: seq<real>) returns (result: seq<real>)
    requires |available| == |lengths|
    ensures result == Shares(lengths, available)
  {
    var order := ArgSort(lengths);
    var predicted := new real[|lengths|](_ => 0.0);
    ghost var expected := Shares(lengths, available);
    var position := 0;
    while position < |order|
      invariant StartsGroup(lengths, order, position)
      invariant Dealt(predicted[..], order, expected, position)
    {
      position := DealGroup(predicted, lengths, available, order, position, expected);
    }
    result := predicted[..];
    DealtAll(result, order, expected);
  }

  /** One round of the scan: the run of equal lengths at `position` gets its average. */
  method DealGroup(predicted: array<real>, lengths: seq<real>, available: seq<real>, order: seq<nat>, position: nat,
                   ghost expected: seq<real>) returns (next: nat)
    requires |available| == |lengths| && StartsGroup(lengths, order, position) && position < |order|
    requires expected == Shares(lengths, available)
    requires Dealt(predicted[..], order, expected, position)
    modifies predicted
    ensures next > position && StartsGroup(lengths, order, next)
    ensures Dealt(predicted[..], order, expected, next)
  {
    var end := GroupEnd(lengths, order, position);
    next := end + 1;
    NextGroup(lengths, order, position, next);
    SharesOfGroup(lengths, available, order, position, next);
    var shared := Average(available[position..next]);
    FillGroup(predicted, order, position, next, shared, expected);
  }

  /** The baseline hands out the marks that were awarded: their total, hence their mean. */
  lemma TotalConserved(texts: seq<string>, human: seq<real>)
    requires |texts| == |human|
    ensures Sum(Predictions(texts, human)) == Sum(human)
  {
    SharesConserve(Lengths(texts), Sorted(human));
    SumPermuted(Sorted(human), human);
  }

  /** Longer never predicts less, equal lengths predict equal marks, and no prediction leaves
      the range of the marks awarded. */
  lemma PredictionsFollowLength(texts: seq<string>, human: seq<real>, i: nat, j: nat)
    requires |texts| == |human| && i < |texts| && j < |texts|
    ensures |texts[i]| <= |texts[j]| ==> Predictions(texts, human)[i] <= Predictions(texts, human)[j]
    ensures |texts[i]| == |texts[j]| ==> Predictions(texts, human)[i] == Predictions(texts, human)[j]
    ensures exists a, b | a in human && b in human :: a <= Predictions(texts, human)[i] <= b
  {
    SharesFollowKeys(Lengths(texts), Sorted(human), i, j);
    var available := Sorted(human);
    ShareBounds(Lengths(texts), available, i);
    var lo := Less(Lengths(texts), Lengths(texts)[i]);
    var hi := lo + Equal(Lengths(texts), Lengths(texts)[i]) - 1;
    assert available[lo] in multiset(human) && available[hi] in multiset(human);
    assert available[lo] in human && available[hi] in human;
  }

  /** When no two answers are equally long, the predictions are the marks, rearranged; the
      answer with k shorter ones takes the (k+1)-th lowest. */
  lemma DistinctLengthsPermuteMarks(texts: seq<string>, human: seq<real>)
    requires |texts| == |human| && forall i, j | 0 <= i < j < |texts| :: |texts[i]| != |texts[j]|
    ensures multiset(Predictions(texts, human)) == multiset(human)
    ensures forall i | 0 <= i < |texts| ::
              var k := Less(Lengths(texts), Lengths(texts)[i]);
              k < |human| && Predictions(texts, human)[i] == Sorted(human)[k]
  {
    SharesOfDistinct(Lengths(texts), Sorted(human));
  }

  /** The result does not depend on the order the answers, or the marks, arrived in. */
  lemma ArrivalOrderIrrelevant(texts: seq<string>, human: seq<real>, order: seq<nat>, human': seq<real>)
    requires |texts| == |human| && IsPermutation(order, |texts|) && multiset(human') == multiset(human)
    ensures |human'| == |human|
    ensures Predictions(Gather(texts, order), human') == Gather(Predictions(texts, human), order)
  {
    assert |human'| == |multiset(human')| == |multiset(human)|;
    SortedIsUnique(Sorted(human'), Sorted(human));
    assert Lengths(Gather(texts, order)) == Gather(Lengths(texts), order);
    SharesRearrange(Lengths(texts), Sorted(human), order);
  }
}
