/** What the reader accepts and refuses, for every text whatever. */
module ReviewRefusals {
  import opened Prelude
  import opened SheetScan
  import opened SheetMarks
  import opened SheetGrammar
  import opened SheetSearch
  import opened ReviewSheet
  import opened ReviewParser
  import opened ReviewRoundTrip
  import opened ReviewVerdicts

  // ---------------------------------------------------------------- one section

  /** The section has a SCORES line whose row is blank or filled. */
  ghost predicate Reads(section: Section) {
    ScoresLine(section.body).Some? && ReadableRow(RowIn(section))
  }

  ghost predicate ReadableRow(row: seq<Option<string>>) {
    Untouched(row) || Complete(row)
  }

  /** What stands after each dimension's name on that line. */
  function RowIn(section: Section): (row: seq<Option<string>>)
    requires ScoresLine(section.body).Some?
    ensures |row| == |DIMENSIONS|
    ensures forall i | 0 <= i < |row| :: row[i] == FindMark(ScoresLine(section.body).value, false, DIMENSIONS[i])
  {
    EntriesOn(DIMENSIONS, ScoresLine(section.body).value)
  }

  lemma SectionExactly(section: Section)
    ensures var v := MarksOf(DIMENSIONS, section.body, section.id);
            && (v.Ok? <==> Reads(section))
            && (v.Ok? ==> (v.value.None? <==> Untouched(RowIn(section))))
            && (v.Ok? && v.value.Some? ==> AreTenths(v.value.value, DIMENSIONS, RowIn(section)))
  {
    DimensionsAreNames();
    if ScoresLine(section.body).Some? {
      VerdictExactly(DIMENSIONS, section.id, RowIn(section));
    }
  }

  // ---------------------------------------------------------------- which fault is reported

  predicate Readable1(entry: Option<string>) {
    entry == Some("_") || IsMark(entry)
  }

  /** What is wrong with one entry. */
  function EntryFault(id: string, name: string, entry: Option<string>): ReviewInvalid {
    if entry.None? then MissingDimension(id, name) else OutOfRange(id, name, Value(entry.value))
  }

  lemma {:induction false} CollectsUpTo(names: seq<string>, id: string, row: seq<Option<string>>, n: nat)
    requires |names| == |row| && n <= |names| && forall i | 0 <= i < n :: Readable1(row[i])
    ensures Collect(names, id, row, n).Ok?
  {
    if n > 0 {
      CollectsUpTo(names, id, row, n - 1);
    }
  }

  /** The first entry that is missing or too large is the one reported. */
  lemma FirstEntryFault(names: seq<string>, id: string, row: seq<Option<string>>, k: nat)
    requires |names| == |row| && k < |names|
    requires !Readable1(row[k]) && forall i | 0 <= i < k :: Readable1(row[i])
    ensures Verdict(names, id, row) == Err(EntryFault(id, names[k], row[k]))
  {
    CollectsUpTo(names, id, row, k);
    CollectFails(names, id, row, k + 1);
  }

  /** The names of the blank entries, in order. */
  function BlankNames(names: seq<string>, row: seq<Option<string>>, n: nat): (blanks: seq<string>)
    requires |names| == |row| && n <= |names|
    ensures |blanks| <= n
  {
    if n == 0 then []
    else BlankNames(names, row, n - 1) + if row[n - 1] == Some("_") then [names[n - 1]] else []
  }

  /** After `n` dimensions: these names blank, the others marked. */
  ghost predicate Tallied(state: Row, names: seq<string>, row: seq<Option<string>>, n: nat)
    requires |names| == |row| && n <= |names|
  {
    && state.blank == BlankNames(names, row, n) && |state.found| == n - |state.blank|
    && forall name | name in state.found :: name in names[..n]
  }

  lemma TalliedNext(state: Row, id: string, names: seq<string>, row: seq<Option<string>>, n: nat)
    requires |names| == |row| && n < |names| && Distinct(names) && Tallied(state, names, row, n) && Readable1(row[n])
    ensures var r := AddDimension(state, id, names[n], row[n]); r.Ok? && Tallied(r.value, names, row, n + 1)
  {
    assert names[..n + 1] == names[..n] + [names[n]];
    assert names[n] !in names[..n];
  }

  lemma {:induction false} BlanksCollected(names: seq<string>, id: string, row: seq<Option<string>>, n: nat)
    requires |names| == |row| && n <= |names| && Distinct(names) && forall i | 0 <= i < n :: Readable1(row[i])
    ensures var r := Collect(names, id, row, n); r.Ok? && Tallied(r.value, names, row, n)
  {
    if n > 0 {
      BlanksCollected(names, id, row, n - 1);
      TalliedNext(Collect(names, id, row, n - 1).value, id, names, row, n - 1);
    }
  }

  /** A row marked in part is reported with how many marks it has and which names are blank. */
  lemma PartMarkedExactly(names: seq<string>, id: string, row: seq<Option<string>>)
    requires |names| == |row| > 0 && Distinct(names)
    requires (forall i | 0 <= i < |row| :: Readable1(row[i])) && !Untouched(row) && !Complete(row)
    ensures Verdict(names, id, row)
         == Err(PartMarked(id, |names| - |BlankNames(names, row, |names|)|, BlankNames(names, row, |names|)))
  {
    BlanksCollected(names, id, row, |names|);
    VerdictExactly(names, id, row);
  }

  // ---------------------------------------------------------------- the sections in turn

  /** A section the reader accepts. */
  ghost predicate Accepts(section: Section, known: set<string>) {
    section.id in known && Reads(section)
  }

  /** The fault of a section it does not. */
  function SectionFault(section: Section, known: set<string>): ReviewInvalid {
    if section.id !in known then UnknownAnswer(section.id)
    else
      match MarksOf(DIMENSIONS, section.body, section.id)
      case Err(e) => e
      case Ok(_) => NoSections
  }

  /** The first `n` sections are all accepted. */
  ghost predicate AllAccepted(sections: seq<Section>, known: set<string>, n: nat)
    requires n <= |sections|
  {
    forall i | 0 <= i < n :: Accepts(sections[i], known)
  }

  lemma AcceptedNext(sections: seq<Section>, known: set<string>, n: nat)
    requires 0 < n <= |sections|
    ensures AllAccepted(sections, known, n) <==> AllAccepted(sections, known, n - 1) && Accepts(sections[n - 1], known)
  {
  }

  /** One more section, the ones before it having been read. */
  lemma ReadOneExactly(marks: map<string, Marks>, section: Section, known: set<string>)
    ensures var r := ReadOne(Ok(marks), section, known);
            && (r.Ok? <==> Accepts(section, known))
            && (r.Err? ==> r == Err(SectionFault(section, known)))
            && (r.Ok? && Untouched(RowIn(section)) ==> r.value == marks)
            && (r.Ok? && !Untouched(RowIn(section)) ==>
                  && r.value.Keys == marks.Keys + {section.id}
                  && (forall id | id in marks && id != section.id :: r.value[id] == marks[id])
                  && AreTenths(r.value[section.id], DIMENSIONS, RowIn(section)))
  {
    SectionExactly(section);
  }

  lemma {:induction false} ReadsUpTo(sections: seq<Section>, known: set<string>, n: nat)
    requires n <= |sections|
    ensures ReadSections(sections, known, n).Ok? <==> AllAccepted(sections, known, n)
  {
    if n > 0 {
      ReadsUpTo(sections, known, n - 1);
      AcceptedNext(sections, known, n);
      var before := ReadSections(sections, known, n - 1);
      if before.Ok? {
        ReadOneExactly(before.value, sections[n - 1], known);
      }
    }
  }

  /** The first section at fault is the one reported. */
  lemma FirstSectionFault(sections: seq<Section>, known: set<string>, k: nat)
    requires k < |sections| && !Accepts(sections[k], known) && AllAccepted(sections, known, k)
    ensures ReadSections(sections, known, |sections|) == Err(SectionFault(sections[k], known))
  {
    ReadsUpTo(sections, known, k);
    ReadOneExactly(ReadSections(sections, known, k).value, sections[k], known);
    ReadFails(sections, known, k + 1);
  }

  /** A filled row for `id`. */
  ghost predicate FillsFor(section: Section, id: string) {
    section.id == id && Reads(section) && !Untouched(RowIn(section))
  }

  ghost predicate LastWhere(f: int -> bool, n: nat, i: int) {
    0 <= i < n && f(i) && forall j | i < j < n :: !f(j)
  }

  lemma LastWhereNext(f: int -> bool, n: nat)
    requires n > 0
    ensures f(n - 1) ==> LastWhere(f, n, n - 1) && forall i | LastWhere(f, n, i) :: i == n - 1
    ensures !f(n - 1) ==> forall i :: LastWhere(f, n, i) <==> LastWhere(f, n - 1, i)
  {
  }

  ghost function Filling(sections: seq<Section>, id: string): int -> bool {
    i => 0 <= i < |sections| && FillsFor(sections[i], id)
  }

  /** Section `i` is the last of the first `n` to fill a row for `id`. */
  ghost predicate LastFilled(sections: seq<Section>, n: nat, id: string, i: int) {
    LastWhere(Filling(sections, id), n, i)
  }

  /** The marks under `id` are those of the row the last filling section holds. */
  ghost predicate FromLast(marks: map<string, Marks>, sections: seq<Section>, n: nat, id: string)
    requires n <= |sections|
  {
    && (id in marks <==> exists i :: LastFilled(sections, n, id, i))
    && (forall i | LastFilled(sections, n, id, i) :: id in marks && GivesMarks(sections[i], marks[id]))
  }

  ghost predicate GivesMarks(section: Section, marks: Marks) {
    Reads(section) && AreTenths(marks, DIMENSIONS, RowIn(section))
  }

  lemma FromLastNext(before: map<string, Marks>, after: map<string, Marks>, sections: seq<Section>, n: nat, id: string)
    requires 0 < n <= |sections| && FromLast(before, sections, n - 1, id)
    requires FillsFor(sections[n - 1], id) ==> id in after && GivesMarks(sections[n - 1], after[id])
    requires !FillsFor(sections[n - 1], id) ==>
               (id in after <==> id in before) && (id in before ==> after[id] == before[id])
    ensures FromLast(after, sections, n, id)
  {
    LastFilledNext(sections, n, id);
    if FillsFor(sections[n - 1], id) {
      forall i | LastFilled(sections, n, id, i) ensures GivesMarks(sections[i], after[id]) {
        assert i == n - 1;
      }
    } else {
      if i :| LastFilled(sections, n, id, i) {
        assert LastFilled(sections, n - 1, id, i);
      }
      if id in after {
        var i :| LastFilled(sections, n - 1, id, i);
        assert LastFilled(sections, n, id, i);
      }
      forall i | LastFilled(sections, n, id, i) ensures GivesMarks(sections[i], after[id]) {
        assert LastFilled(sections, n - 1, id, i);
      }
    }
  }

  lemma LastFilledNext(sections: seq<Section>, n: nat, id: string)
    requires 0 < n <= |sections|
    ensures FillsFor(sections[n - 1], id) ==> LastFilled(sections, n, id, n - 1)
    ensures FillsFor(sections[n - 1], id) ==> forall i | LastFilled(sections, n, id, i) :: i == n - 1
    ensures !FillsFor(sections[n - 1], id) ==>
              forall i :: LastFilled(sections, n, id, i) <==> LastFilled(sections, n - 1, id, i)
  {
    var f := Filling(sections, id);
    LastWhereNext(f, n);
    assert f(n - 1) <==> FillsFor(sections[n - 1], id);
  }

  lemma OneMoreSection(before: map<string, Marks>, section: Section, known: set<string>, id: string)
    requires Accepts(section, known)
    ensures var r := ReadOne(Ok(before), section, known);
            && r.Ok?
            && (FillsFor(section, id) ==> id in r.value && GivesMarks(section, r.value[id]))
            && (!FillsFor(section, id) ==>
                  (id in r.value <==> id in before) && (id in before ==> r.value[id] == before[id]))
  {
    ReadOneExactly(before, section, known);
  }

  lemma {:induction false} LastFilledCounts(sections: seq<Section>, known: set<string>, n: nat, id: string)
    requires n <= |sections| && AllAccepted(sections, known, n)
    ensures ReadSections(sections, known, n).Ok? && FromLast(ReadSections(sections, known, n).value, sections, n, id)
  {
    ReadsUpTo(sections, known, n);
    if n > 0 {
      AcceptedNext(sections, known, n);
      LastFilledCounts(sections, known, n - 1, id);
      var before := ReadSections(sections, known, n - 1).value;
      OneMoreSection(before, sections[n - 1], known, id);
      FromLastNext(before, ReadSections(sections, known, n).value, sections, n, id);
    }
  }

  // ---------------------------------------------------------------- the whole text

  /** Any text is read if and only if its first digest comment is the expected one, it has a
      section, and every section names a known answer and has a line that is blank or filled. */
  lemma ReviewAcceptsExactly(text: string, digest: string, known: set<string>)
    ensures var sections := Split(text, true).sections;
            Review(text, digest, known).Ok? <==>
              FirstComment(text, digest) && sections != [] && AllAccepted(sections, known, |sections|)
  {
    var sections := Split(text, true).sections;
    FindDigestExactly(text);
    ReadsUpTo(sections, known, |sections|);
    if FirstComment(text, digest) {
      CommentFound(text, digest);
    }
  }

  lemma CommentFound(text: string, digest: string)
    requires FirstComment(text, digest)
    ensures FindDigest(text) == Some(digest)
  {
    FindDigestExactly(text);
    var p :| CommentAt(text, p, digest) && forall q, other | 0 <= q < p :: !CommentAt(text, q, other);
    FirstCommentIsOne(text, digest, FindDigest(text).value);
  }

  /** A text without the comment is refused for that, whatever its sections say, and a text whose
      first comment is another digest is refused naming it. */
  lemma DigestDecides(text: string, digest: string, known: set<string>)
    ensures (forall p, d :: !CommentAt(text, p, d)) ==> Review(text, digest, known) == Err(NoDigest)
    ensures forall found | FirstComment(text, found) && found != digest ::
              Review(text, digest, known) == Err(StaleDigest(found))
    ensures FirstComment(text, digest) && Split(text, true).sections == [] ==> Review(text, digest, known) == Err(NoSections)
  {
    FindDigestExactly(text);
    forall found | FirstComment(text, found) ensures FindDigest(text) == Some(found) {
      CommentFound(text, found);
    }
  }

  /** Otherwise the first section at fault decides. */
  lemma FaultReported(text: string, digest: string, known: set<string>, k: nat)
    requires FirstComment(text, digest) && k < |Split(text, true).sections|
    requires var sections := Split(text, true).sections;
             !Accepts(sections[k], known) && AllAccepted(sections, known, k)
    ensures Review(text, digest, known) == Err(SectionFault(Split(text, true).sections[k], known))
  {
    CommentFound(text, digest);
    FirstSectionFault(Split(text, true).sections, known, k);
  }

  /** A section without a SCORES line is refused for that. */
  lemma NoLineRefused(section: Section, known: set<string>)
    requires section.id in known
    ensures SectionFault(section, known) == NoScoresLine(section.id) <==> NoScores(SplitLines(section.body))
  {
    var i := ScoresLineExactly(section.body);
    if ScoresLine(section.body).Some? {
      VerdictNeverBlamesLine(DIMENSIONS, section.id, RowIn(section), |DIMENSIONS|);
    }
  }

  lemma {:induction false} VerdictNeverBlamesLine(names: seq<string>, id: string, row: seq<Option<string>>, n: nat)
    requires |names| == |row| && n <= |names|
    ensures Collect(names, id, row, n) != Err(NoScoresLine(id))
  {
    if n > 0 {
      VerdictNeverBlamesLine(names, id, row, n - 1);
    }
  }

  /** What is recorded, for any text that is read: each answer's last filled row, over ten. */
  lemma MarksRecordedExactly(text: string, digest: string, known: set<string>, id: string)
    requires Review(text, digest, known).Ok?
    ensures FromLast(Review(text, digest, known).value, Split(text, true).sections, |Split(text, true).sections|, id)
  {
    ReviewAcceptsExactly(text, digest, known);
    LastFilledCounts(Split(text, true).sections, known, |Split(text, true).sections|, id);
  }
}
