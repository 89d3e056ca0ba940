/** Reading a marked sheet back: what is recorded, and what is refused. */
module ReviewParser {
  import opened Prelude
  import opened SheetScan
  import opened SheetMarks
  import opened ReviewSheet

  const MAX_MARK := 10

  datatype ReviewInvalid =
    | NoDigest
    | StaleDigest(found: string)
    | NoSections
    | UnknownAnswer(id: string)
    | NoScoresLine(id: string)
    | MissingDimension(id: string, name: string)
    | OutOfRange(id: string, name: string, value: nat)
    | PartMarked(id: string, marked: nat, blank: seq<string>)

  /** Dimension to mark, in [0, 1]. */
  type Marks = map<string, real>

  function DigitValue(c: char): nat {
    if IsDigit(c) then c as int - '0' as int else 0
  }

  /** The number a string of digits stands for. */
  function Value(digits: string): nat {
    if digits == "" then 0
    else 10 * Value(digits[..|digits| - 1]) + DigitValue(digits[|digits| - 1])
  }

  // ---------------------------------------------------------------- one row

  /** What the loop over the dimensions has collected: marks found and names still blank. */
  datatype Row = Row(found: Marks, blank: seq<string>)

  function AddDimension(row: Row, id: string, name: string, entry: Option<string>): Result<Row, ReviewInvalid>
  {
    match entry
    case None => Err(MissingDimension(id, name))
    case Some(raw) =>
      if raw == "_" then Ok(row.(blank := row.blank + [name]))
      else if Value(raw) > MAX_MARK then Err(OutOfRange(id, name, Value(raw)))
      else Ok(row.(found := row.found[name := Value(raw) as real / 10.0]))
  }

  /** The first `n` dimensions of a row, given how each name's entry is read. */
  function Collect(names: seq<string>, id: string, entries: seq<Option<string>>, n: nat): Result<Row, ReviewInvalid>
    requires |entries| == |names| && n <= |names|
  {
    if n == 0 then Ok(Row(map[], []))
    else
      match Collect(names, id, entries, n - 1)
      case Err(e) => Err(e)
      case Ok(row) => AddDimension(row, id, names[n - 1], entries[n - 1])
  }

  /** None for an untouched row; an error for one marked in part. */
  function Conclude(id: string, row: Row): Result<Option<Marks>, ReviewInvalid> {
    if row.found == map[] then Ok(None)
    else if row.blank != [] then Err(PartMarked(id, |row.found|, row.blank))
    else Ok(Some(row.found))
  }

  function Verdict(names: seq<string>, id: string, entries: seq<Option<string>>): Result<Option<Marks>, ReviewInvalid>
    requires |entries| == |names|
  {
    match Collect(names, id, entries, |names|)
    case Err(e) => Err(e)
    case Ok(row) => Conclude(id, row)
  }

  function EntriesOn(names: seq<string>, line: string): (entries: seq<Option<string>>)
    ensures |entries| == |names| && forall i | 0 <= i < |entries| :: entries[i] == FindMark(line, false, names[i])
  {
    seq(|names|, i requires 0 <= i < |names| => FindMark(line, false, names[i]))
  }

  function MarksOf(names: seq<string>, block: string, id: string): Result<Option<Marks>, ReviewInvalid> {
    match ScoresLine(block)
    case None => Err(NoScoresLine(id))
    case Some(line) => Verdict(names, id, EntriesOn(names, line))
  }

  /** The loop over the dimensions: fills `found` and `blank`, or stops at the first fault. */
  method CollectMarks(names: seq<string>, line: string, id: string) returns (r: Result<Row, ReviewInvalid>)
    ensures r == Collect(names, id, EntriesOn(names, line), |names|)
  {
    ghost var entries := EntriesOn(names, line);
    var row := Row(map[], []);
    for i := 0 to |names|
      invariant Collect(names, id, entries, i) == Ok(row)
    {
      var next := CollectMark(row.found, row.blank, id, names[i], line);
      CollectNext(names, id, entries, i, row, next);
      if next.Err? {
        CollectFails(names, id, entries, i + 1);
        return next;
      }
      row := next.value;
    }
    r := Ok(row);
  }

  lemma CollectNext(names: seq<string>, id: string, entries: seq<Option<string>>, i: nat, row: Row, next: Result<Row, ReviewInvalid>)
    requires |entries| == |names| && i < |names| && Collect(names, id, entries, i) == Ok(row)
    requires next == AddDimension(row, id, names[i], entries[i])
    ensures Collect(names, id, entries, i + 1) == next
  {
  }

  /** One dimension: a fault, a blank, or a mark. */
  method CollectMark(found: Marks, blank: seq<string>, id: string, name: string, line: string)
    returns (r: Result<Row, ReviewInvalid>)
    ensures r == AddDimension(Row(found, blank), id, name, FindMark(line, false, name))
  {
    var raw := FindMark(line, false, name);
    if raw.None? {
      return Err(MissingDimension(id, name));
    }
    if raw.value == "_" {
      return Ok(Row(found, blank + [name]));
    }
    var value := Value(raw.value);
    if value > MAX_MARK {
      return Err(OutOfRange(id, name, value));
    }
    r := Ok(Row(found[name := value as real / 10.0], blank));
  }

  /** The marks in one section, or None if the row is untouched. */
  method MarksIn(names: seq<string>, block: string, id: string) returns (r: Result<Option<Marks>, ReviewInvalid>)
    ensures r == MarksOf(names, block, id)
  {
    var line := ScoresLine(block);
    if line.None? {
      return Err(NoScoresLine(id));
    }
    var row := CollectMarks(names, line.value, id);
    if row.Err? {
      return Err(row.error);
    }
    if row.value.found == map[] {
      return Ok(None);
    }
    if row.value.blank != [] {
      return Err(PartMarked(id, |row.value.found|, row.value.blank));
    }
    r := Ok(Some(row.value.found));
  }

  /** The first failing dimension decides. */
  lemma {:induction false} CollectFails(names: seq<string>, id: string, entries: seq<Option<string>>, n: nat)
    requires |entries| == |names| && n <= |names|
    requires Collect(names, id, entries, n).Err?
    ensures Collect(names, id, entries, |names|) == Collect(names, id, entries, n)
    decreases |names| - n
  {
    if n < |names| {
      CollectFails(names, id, entries, n + 1);
    }
  }

  // ---------------------------------------------------------------- the whole sheet

  /** One more row's verdict, recorded under its id; a later row for an id replaces an earlier. */
  function Record(marks: Result<map<string, Marks>, ReviewInvalid>, id: string, row: Result<Option<Marks>, ReviewInvalid>)
    : Result<map<string, Marks>, ReviewInvalid>
  {
    if marks.Err? then marks
    else
      match row
      case Err(e) => Err(e)
      case Ok(None) => marks
      case Ok(Some(found)) => Ok(marks.value[id := found])
  }

  function ReadOne(marks: Result<map<string, Marks>, ReviewInvalid>, section: Section, known: set<string>)
    : Result<map<string, Marks>, ReviewInvalid>
  {
    if marks.Err? then marks
    else if section.id !in known then Err(UnknownAnswer(section.id))
    else Record(marks, section.id, MarksOf(DIMENSIONS, section.body, section.id))
  }

  /** The marks of the first `n` sections. */
  function ReadSections(sections: seq<Section>, known: set<string>, n: nat): Result<map<string, Marks>, ReviewInvalid>
    requires n <= |sections|
  {
    if n == 0 then Ok(map[]) else ReadOne(ReadSections(sections, known, n - 1), sections[n - 1], known)
  }

  function Review(text: string, digest: string, known: set<string>): Result<map<string, Marks>, ReviewInvalid> {
    match FindDigest(text)
    case None => Err(NoDigest)
    case Some(found) =>
      if found != digest then Err(StaleDigest(found))
      else
        var sections := Split(text, true).sections;
        if sections == [] then Err(NoSections) else ReadSections(sections, known, |sections|)
  }

  method ParseReview(text: string, digest: string, known: set<string>) returns (r: Result<map<string, Marks>, ReviewInvalid>)
    ensures r == Review(text, digest, known)
  {
    var found := FindDigest(text);
    if found.None? {
      return Err(NoDigest);
    }
    if found.value != digest {
      return Err(StaleDigest(found.value));
    }
    var sections := Split(text, true).sections;
    if sections == [] {
      return Err(NoSections);
    }
    var marks: map<string, Marks> := map[];
    for index := 0 to |sections|
      invariant ReadSections(sections, known, index) == Ok(marks)
    {
      var section := sections[index];
      if section.id !in known {
        ReadFails(sections, known, index + 1);
        return Err(UnknownAnswer(section.id));
      }
      var row := MarksIn(DIMENSIONS, section.body, section.id);
      if row.Err? {
        ReadFails(sections, known, index + 1);
        return Err(row.error);
      }
      if row.value.Some? {
        marks := marks[section.id := row.value.value];
      }
    }
    r := Ok(marks);
  }

  lemma {:induction false} ReadFails(sections: seq<Section>, known: set<string>, n: nat)
    requires n <= |sections| && ReadSections(sections, known, n).Err?
    ensures ReadSections(sections, known, |sections|) == ReadSections(sections, known, n)
    decreases |sections| - n
  {
    if n < |sections| {
      ReadFails(sections, known, n + 1);
    }
  }
}
