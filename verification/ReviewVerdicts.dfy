/** What a row of entries is read as, and what a sheet should record. */
module ReviewVerdicts {
  import opened Prelude
  import opened RealArith
  import opened SheetScan
  import opened SheetMarks
  import opened ReviewSheet
  import opened ReviewParser
  import opened ReviewRoundTrip
  import opened ReviewReadBack

  // ---------------------------------------------------------------- one row

  predicate Untouched(row: seq<Option<string>>) {
    forall i | 0 <= i < |row| :: row[i] == Some("_")
  }

  /** A number from 0 to 10. */
  predicate IsMark(entry: Option<string>) {
    entry.Some? && entry.value != "_" && Value(entry.value) <= 10
  }

  predicate Complete(row: seq<Option<string>>) {
    forall i | 0 <= i < |row| :: IsMark(row[i])
  }

  /** Each dimension's mark is a tenth of the number read. */
  ghost predicate AreTenths(marks: Marks, names: seq<string>, row: seq<Option<string>>)
    requires |names| == |row|
  {
    && (forall name :: name in marks <==> name in names)
    && HoldsTenths(marks, names, row, |names|)
  }

  ghost predicate Distinct(names: seq<string>) {
    forall i, j | 0 <= i < j < |names| :: names[i] != names[j]
  }

  /** The names among the first `n` that carry a number. */
  function Marked(names: seq<string>, row: seq<Option<string>>, n: nat): set<string>
    requires |names| == |row| && n <= |names|
  {
    set i | 0 <= i < n && row[i] != Some("_") :: names[i]
  }

  lemma MarkedNext(names: seq<string>, row: seq<Option<string>>, n: nat)
    requires |names| == |row| && n < |names|
    ensures Marked(names, row, n + 1) == Marked(names, row, n) + if row[n] != Some("_") then {names[n]} else {}
  {
  }

  /** The first `n` entries can each be read. */
  ghost predicate InRange(row: seq<Option<string>>, n: nat)
    requires n <= |row|
  {
    forall i | 0 <= i < n :: row[i] == Some("_") || IsMark(row[i])
  }

  ghost predicate NoBlank(row: seq<Option<string>>, n: nat)
    requires n <= |row|
  {
    forall i | 0 <= i < n :: row[i] != Some("_")
  }

  ghost predicate HoldsTenths(found: Marks, names: seq<string>, row: seq<Option<string>>, n: nat)
    requires |names| == |row| && n <= |names|
  {
    forall i | 0 <= i < n && IsMark(row[i]) :: names[i] in found && found[names[i]] == Value(row[i].value) as real / 10.0
  }

  /** The state of the loop after `n` dimensions. */
  ghost predicate Collected(state: Row, names: seq<string>, row: seq<Option<string>>, n: nat)
    requires |names| == |row| && n <= |names|
  {
    && state.found.Keys == Marked(names, row, n)
    && HoldsTenths(state.found, names, row, n)
    && (state.blank == [] <==> NoBlank(row, n))
  }

  lemma {:induction false} CollectExactly(names: seq<string>, id: string, row: seq<Option<string>>, n: nat)
    requires |names| == |row| && n <= |names| && Distinct(names)
    ensures var r := Collect(names, id, row, n);
            && (r.Ok? <==> InRange(row, n))
            && (r.Ok? ==> Collected(r.value, names, row, n))
  {
    if n > 0 {
      CollectExactly(names, id, row, n - 1);
      var before := Collect(names, id, row, n - 1);
      if before.Ok? {
        CollectStep(before.value, id, names, row, n - 1);
      } else {
        RangeNext(row, n - 1);
      }
    }
  }

  lemma CollectStep(state: Row, id: string, names: seq<string>, row: seq<Option<string>>, k: nat)
    requires |names| == |row| && k < |names| && Distinct(names)
    requires Collected(state, names, row, k) && InRange(row, k)
    ensures var r := AddDimension(state, id, names[k], row[k]);
            && (r.Ok? <==> InRange(row, k + 1))
            && (r.Ok? ==> Collected(r.value, names, row, k + 1))
  {
    MarkedNext(names, row, k);
    RangeNext(row, k);
    if IsMark(row[k]) {
      AddedTenth(state.found, names, row, k);
    }
  }

  lemma RangeNext(row: seq<Option<string>>, k: nat)
    requires k < |row|
    ensures InRange(row, k + 1) <==> InRange(row, k) && (row[k] == Some("_") || IsMark(row[k]))
    ensures NoBlank(row, k + 1) <==> NoBlank(row, k) && row[k] != Some("_")
  {
  }

  lemma AddedTenth(found: Marks, names: seq<string>, row: seq<Option<string>>, k: nat)
    requires |names| == |row| && k < |names| && Distinct(names) && HoldsTenths(found, names, row, k) && IsMark(row[k])
    ensures HoldsTenths(found[names[k] := Value(row[k].value) as real / 10.0], names, row, k + 1)
  {
  }

  /** A row is read when it is untouched or complete, and refused otherwise. */
  lemma VerdictExactly(names: seq<string>, id: string, row: seq<Option<string>>)
    requires |names| == |row| > 0 && Distinct(names)
    ensures var v := Verdict(names, id, row);
            && (v.Ok? <==> Untouched(row) || Complete(row))
            && (v.Ok? ==> (v.value.None? <==> Untouched(row)))
            && (v.Ok? && v.value.Some? ==> AreTenths(v.value.value, names, row))
  {
    CollectExactly(names, id, row, |names|);
    var r := Collect(names, id, row, |names|);
    if r.Ok? {
      EmptyIsUntouched(r.value, names, row);
    }
    assert Untouched(row) ==> row[0] == Some("_");
  }

  lemma EmptyIsUntouched(state: Row, names: seq<string>, row: seq<Option<string>>)
    requires |names| == |row| && Collected(state, names, row, |names|)
    ensures state.found == map[] <==> Untouched(row)
  {
    var marked := Marked(names, row, |names|);
    assert forall i | 0 <= i < |row| && row[i] != Some("_") :: names[i] in marked;
    assert state.found == map[] <==> marked == {};
  }

  // ---------------------------------------------------------------- what a number is read as

  predicate Digits(e: string) {
    e != "" && forall i | 0 <= i < |e| :: IsDigit(e[i])
  }

  function Power10(n: nat): (p: nat)
    ensures p >= 1
  {
    if n == 0 then 1 else 10 * Power10(n - 1)
  }

  /** `e` is the decimal numeral of `x`. */
  ghost predicate Denotes(e: string, x: real) {
    || (Digits(e) && x == Value(e) as real)
    || (exists whole, part :: IsDecimal(e, whole, part) && x == DecimalValue(whole, part))
  }

  ghost predicate IsDecimal(e: string, whole: string, part: string) {
    Digits(whole) && Digits(part) && e == whole + "." + part
  }

  function DecimalValue(whole: string, part: string): real {
    Value(whole) as real + Value(part) as real / Power10(|part|) as real
  }

  lemma {:induction false} ValueBelow(digits: string)
    requires forall i | 0 <= i < |digits| :: IsDigit(digits[i])
    ensures Value(digits) < Power10(|digits|)
  {
    if digits != "" {
      ValueBelow(digits[..|digits| - 1]);
    }
  }

  lemma FractionBelowOne(v: nat, p: nat)
    requires v < p
    ensures 0.0 <= v as real / p as real < 1.0
    ensures v as real / p as real == 0.0 <==> v == 0
  {
    DivideLe(v as real, 0.0, p as real);
    DivideLe(v as real, 1.0, p as real);
  }

  lemma DigitsRead(digits: string, rest: string)
    requires Digits(digits) && (rest == "" || !IsDigit(rest[0]))
    ensures Reading(digits + rest) == Some(digits)
  {
    var e := digits + rest;
    assert e[0] == digits[0];
    SkipNothing(e);
    SpanExact(IsDigit, digits, rest);
    assert e[..|digits|] == digits;
  }

  lemma DigitsTyped(digits: string)
    requires Digits(digits)
    ensures IsTyped(digits)
  {
    assert forall i | 0 <= i < |digits| :: IsDigit(digits[i]);
  }

  lemma DecimalRead(e: string, whole: string, part: string)
    requires IsDecimal(e, whole, part)
    ensures IsTyped(e) && Reading(e) == Some(whole) && Value(whole) == DecimalValue(whole, part).Floor
    ensures Value(whole) as real == DecimalValue(whole, part) <==> DecimalValue(whole, part) == DecimalValue(whole, part).Floor as real
  {
    DigitsTyped(whole);
    DigitsTyped(part);
    ValueBelow(part);
    FractionBelowOne(Value(part), Power10(|part|));
    DigitsRead(whole, "." + part);
    assert e == whole + ("." + part);
  }

  /** A typed number is read rounded down, without an error: it is read as another number
      exactly when it is not whole. */
  lemma NumbersRoundDown(e: string, x: real)
    requires Denotes(e, x)
    ensures IsTyped(e) && Reading(e).Some? && Reading(e).value != "_"
    ensures Value(Reading(e).value) == x.Floor
    ensures Value(Reading(e).value) as real != x <==> x != x.Floor as real
  {
    if Digits(e) && x == Value(e) as real {
      DigitsTyped(e);
      DigitsRead(e, "");
      assert e + "" == e;
    } else {
      var whole, part :| IsDecimal(e, whole, part) && x == DecimalValue(whole, part);
      DecimalRead(e, whole, part);
      assert whole[0] != '_';
    }
  }

  /** An entry is read as exactly what was typed if and only if it is a blank or all digits. */
  lemma ReadAsTyped(e: string)
    ensures Reading(e) == Some(e) <==> IsEntry(e)
  {
    var t := SkipSpace(e);
    SpanStops(IsDigit, t);
    if IsEntry(e) {
      if e == "_" {
        SkipNothing(e);
      } else {
        DigitsRead(e, "");
        assert e + "" == e;
      }
    }
  }

  // ---------------------------------------------------------------- what a sheet should record

  /** The ids on whose rows something is read. */
  function Touched(ids: seq<string>, typed: Typed): set<string>
    requires ValidTyped(typed)
  {
    set id | id in ids && !Untouched(Entered(typed, id))
  }

  ghost predicate HasMarks(marks: Marks, typed: Typed, id: string)
    requires ValidTyped(typed)
  {
    AreTenths(marks, DIMENSIONS, Entered(typed, id))
  }

  ghost predicate AllHaveMarks(marks: map<string, Marks>, typed: Typed)
    requires ValidTyped(typed)
  {
    forall id | id in marks :: HasMarks(marks[id], typed, id)
  }

  /** A row that is read at all. */
  ghost predicate Readable(typed: Typed, id: string)
    requires ValidTyped(typed)
  {
    Untouched(Entered(typed, id)) || Complete(Entered(typed, id))
  }

  ghost predicate AllReadable(ids: seq<string>, typed: Typed)
    requires ValidTyped(typed)
  {
    forall i | 0 <= i < |ids| :: Readable(typed, ids[i])
  }

  lemma RowExactly(typed: Typed, id: string, under: string)
    requires ValidTyped(typed)
    ensures var v := RowOf(typed, id, under);
            && (v.Ok? <==> Readable(typed, id))
            && (v.Ok? ==> (v.value.None? <==> Untouched(Entered(typed, id))))
            && (v.Ok? && v.value.Some? ==> HasMarks(v.value.value, typed, id))
  {
    DimensionsAreNames();
    VerdictExactly(DIMENSIONS, under, Entered(typed, id));
  }

  lemma KeepsMarks(marks: map<string, Marks>, typed: Typed, id: string, row: Marks)
    requires ValidTyped(typed) && AllHaveMarks(marks, typed) && HasMarks(row, typed, id)
    ensures AllHaveMarks(marks[id := row], typed)
  {
  }

  lemma TouchedCons(ids: seq<string>, typed: Typed)
    requires ValidTyped(typed) && ids != []
    ensures Touched(ids, typed)
         == (if Untouched(Entered(typed, ids[0])) then {} else {ids[0]}) + Touched(ids[1..], typed)
  {
    assert ids == [ids[0]] + ids[1..];
  }

  /** Recording succeeds exactly when every row can be read, and then adds the touched rows. */
  lemma {:induction false} RecordedExactly(marks: map<string, Marks>, ids: seq<string>, typed: Typed)
    requires ValidTyped(typed) && AllHaveMarks(marks, typed)
    ensures var r := Recorded(Ok(marks), ids, typed);
            && (r.Ok? <==> AllReadable(ids, typed))
            && (r.Ok? ==> r.value.Keys == marks.Keys + Touched(ids, typed) && AllHaveMarks(r.value, typed))
    decreases |ids|
  {
    if ids != [] {
      var id, row := ids[0], RowOf(typed, ids[0], ids[0]);
      RowExactly(typed, id, id);
      TouchedCons(ids, typed);
      ReadableCons(ids, typed);
      if row.Err? {
        ErrorsStay(row.error, ids[1..], typed);
      } else if row.value.None? {
        RecordedExactly(marks, ids[1..], typed);
      } else {
        KeepsMarks(marks, typed, id, row.value.value);
        RecordedExactly(marks[id := row.value.value], ids[1..], typed);
      }
    }
  }

  lemma ReadableCons(ids: seq<string>, typed: Typed)
    requires ValidTyped(typed) && ids != []
    ensures AllReadable(ids, typed) <==> Readable(typed, ids[0]) && AllReadable(ids[1..], typed)
  {
    assert ids == [ids[0]] + ids[1..];
  }

  lemma {:induction false} ErrorsStay(error: ReviewInvalid, ids: seq<string>, typed: Typed)
    requires ValidTyped(typed)
    ensures Recorded(Err(error), ids, typed) == Err(error)
    decreases |ids|
  {
    if ids != [] {
      ErrorsStay(error, ids[1..], typed);
    }
  }
}
