/** What reading a printed sheet comes to: one fold over the sections its answers make. */
module ReviewReadBack {
  import opened Prelude
  import opened SheetScan
  import opened SheetSections
  import opened SheetMarks
  import opened ReviewSheet
  import opened ReviewParser
  import opened ReviewRoundTrip

  // ---------------------------------------------------------------- every chunk is well-formed

  /** Printed lines are harmless, and an answer's marks are on a line the generator wrote. */
  ghost predicate Tidy(chunk: Chunk, typed: Typed)
    requires ValidTyped(typed)
  {
    match chunk
    case Plain(lines) => AllHarmless(lines)
    case Answer(p) => 'A' <= p.letter <= 'E' && IsId(p.id) && p.scores == ScoreLine(typed, p.id)
  }

  ghost predicate AllTidy(doc: seq<Chunk>, typed: Typed)
    requires ValidTyped(typed)
  {
    doc == [] || (Tidy(doc[0], typed) && AllTidy(doc[1..], typed))
  }

  lemma {:induction false} TidyAppend(a: seq<Chunk>, b: seq<Chunk>, typed: Typed)
    requires ValidTyped(typed) && AllTidy(a, typed) && AllTidy(b, typed)
    ensures AllTidy(a + b, typed)
    decreases |a|
  {
    if a == [] {
      assert a + b == b;
    } else {
      assert (a + b)[0] == a[0] && (a + b)[1..] == a[1..] + b;
      TidyAppend(a[1..], b, typed);
    }
  }

  lemma {:induction false} TidyIsWellFormed(doc: seq<Chunk>, typed: Typed)
    requires ValidTyped(typed) && AllTidy(doc, typed)
    ensures forall i | 0 <= i < |doc| :: WellFormed(doc[i])
    decreases |doc|
  {
    if doc != [] {
      TidyIsWellFormed(doc[1..], typed);
      if doc[0].Answer? {
        ScoreLineClean(typed, doc[0].printed.id);
      }
      assert forall i | 1 <= i < |doc| :: doc[i] == doc[1..][i - 1];
    }
  }

  lemma {:induction false} GroupMembers(answers: seq<ReviewSheet.Answer>, questionId: string)
    ensures forall a :: a in Group(answers, questionId) <==> a in answers && a.questionId == questionId
  {
    if answers != [] {
      var n := |answers| - 1;
      GroupMembers(answers[..n], questionId);
      assert answers == answers[..n] + [answers[n]];
    }
  }

  /** Shuffling loses no answer and adds none. */
  lemma ShuffledMembers(s: Source, i: nat)
    requires Shuffles(s) && i < |s.questions|
    ensures forall a :: a in Shuffled(s, i) <==> a in s.answers && a.questionId == s.questions[i].id
  {
    var group := Group(s.answers, s.questions[i].id);
    GroupMembers(s.answers, s.questions[i].id);
    assert Permutes(s.shuffle, i, |group|);
    Sequences.GatherPermutes(group, s.shuffle(i, |group|));
    assert forall a :: a in Shuffled(s, i) <==> a in multiset(Shuffled(s, i));
    assert forall a :: a in group <==> a in multiset(group);
  }

  lemma {:induction false} AnswerChunksTidy(group: seq<ReviewSheet.Answer>, k: nat, typed: Typed)
    requires |group| <= |LETTERS| && k <= |group| && ValidTyped(typed)
    requires forall i | 0 <= i < |group| :: IsId(group[i].id)
    ensures AllTidy(AnswerChunks(group, k, typed), typed)
    decreases |group| - k
  {
    if k < |group| {
      AnswerChunksTidy(group, k + 1, typed);
      StartsQuietly("");
      assert 'A' <= LETTERS[k] <= 'E';
      var head := [Plain([""]), Chunk.Answer(Printed(LETTERS[k], group[k].id, group[k].text, ScoreLine(typed, group[k].id)))];
      assert head[1..] == [head[1]] && [head[1]][1..] == [];
      TidyAppend(head, AnswerChunks(group, k + 1, typed), typed);
    }
  }

  lemma QuestionChunksTidy(s: Source, i: nat, typed: Typed)
    requires Shuffles(s) && Printable(s) && Clean(s) && i < |s.questions| && ValidTyped(typed)
    ensures AllTidy(QuestionChunks(s, i, typed), typed)
  {
    assert QuestionPrints(s, i);
    var group := Shuffled(s, i);
    ShuffledMembers(s, i);
    forall j | 0 <= j < |group| ensures IsId(group[j].id) {
      assert group[j] in s.answers;
    }
    AnswerChunksTidy(group, 0, typed);
    QuestionLinesHarmless(i + 1, |s.questions|, s.questions[i]);
    StartsQuietly("");
    StartsQuietly("---");
    var lines := QuestionLines(i + 1, |s.questions|, s.questions[i]);
    HarmlessAppend([""], lines);
    TidyPlain([""] + lines, typed);
    TidyPlain(["", "---"], typed);
    TidyAppend([Plain([""] + lines)], AnswerChunks(group, 0, typed), typed);
    TidyAppend([Plain([""] + lines)] + AnswerChunks(group, 0, typed), [Plain(["", "---"])], typed);
  }

  lemma TidyPlain(lines: seq<string>, typed: Typed)
    requires ValidTyped(typed) && AllHarmless(lines)
    ensures AllTidy([Plain(lines)], typed)
  {
    assert [Plain(lines)][1..] == [];
  }

  lemma {:induction false} ChunksTidy(s: Source, n: nat, typed: Typed)
    requires Shuffles(s) && Printable(s) && Clean(s) && n <= |s.questions| && ValidTyped(typed)
    ensures AllTidy(ChunksUpTo(s, n, typed), typed)
  {
    if n > 0 {
      ChunksTidy(s, n - 1, typed);
      QuestionChunksTidy(s, n - 1, typed);
      TidyAppend(ChunksUpTo(s, n - 1, typed), QuestionChunks(s, n - 1, typed), typed);
    }
  }

  // ---------------------------------------------------------------- the sections of a document

  /** The printed lines before the next answer. */
  function TailLines(doc: seq<Chunk>): seq<string> {
    if doc == [] || doc[0].Answer? then [] else doc[0].lines + TailLines(doc[1..])
  }

  /** The sections an answer's own headings cut off before the line its marks go on: none, if
      it has no heading. */
  function Inner(id: string, text: string): seq<Section> {
    var inside := Split(text, true);
    if inside.sections == [] then []
    else [Section(id, "\n\n" + inside.preamble)] + inside.sections[..|inside.sections| - 1]
  }

  /** The id under which that line is read, and the text above it in its section. */
  function LastId(id: string, text: string): string {
    var inside := Split(text, true);
    if inside.sections == [] then id else inside.sections[|inside.sections| - 1].id
  }

  function LastText(text: string): string {
    var inside := Split(text, true);
    if inside.sections == [] then "\n\n" + inside.preamble else inside.sections[|inside.sections| - 1].body
  }

  function LastSection(p: Printed, tail: string): Section {
    Section(LastId(p.id, p.text), LastText(p.text) + Unlines(Fence(p.scores)) + tail)
  }

  function AllSections(doc: seq<Chunk>): seq<Section> {
    if doc == [] then []
    else
      match doc[0]
      case Plain(_) => AllSections(doc[1..])
      case Answer(p) =>
        Inner(p.id, p.text) + [LastSection(p, Unlines(TailLines(doc[1..])))] + AllSections(doc[1..])
  }

  lemma GlueSections(id: string, inside: Parsed, fence: string, tail: string, rest: seq<Section>)
    ensures var after := Glue(Parsed("\n\n" + inside.preamble, inside.sections), Parsed(fence + tail, rest));
            var n := |inside.sections|;
            [Section(id, after.preamble)] + after.sections
              == if n == 0 then [] + [Section(id, "\n\n" + inside.preamble + fence + tail)] + rest
                 else [Section(id, "\n\n" + inside.preamble)] + inside.sections[..n - 1]
                        + [Section(inside.sections[n - 1].id, inside.sections[n - 1].body + fence + tail)] + rest
  {
    var n := |inside.sections|;
    if n == 0 {
      Associative("\n\n" + inside.preamble, fence, tail);
    } else {
      Associative(inside.sections[n - 1].body, fence, tail);
      var first, front := [Section(id, "\n\n" + inside.preamble)], inside.sections[..n - 1];
      var last := [Section(inside.sections[n - 1].id, inside.sections[n - 1].body + (fence + tail))];
      Associative(first, front, last);
      Associative(first, front + last, rest);
    }
  }

  lemma {:induction false} DocSectionsAre(doc: seq<Chunk>)
    ensures DocSections(doc) == Parsed(Unlines(TailLines(doc)), AllSections(doc))
    decreases |doc|
  {
    if doc != [] {
      var tail, rest := TailLines(doc[1..]), AllSections(doc[1..]);
      DocSectionsAre(doc[1..]);
      match doc[0]
      case Plain(lines) => UnlinesAppend(lines, tail);
      case Answer(p) => GlueSections(p.id, Split(p.text, true), Unlines(Fence(p.scores)), Unlines(tail), rest);
    }
  }

  // ---------------------------------------------------------------- each row

  /** What is read of the entries typed for an answer. */
  function Entered(typed: Typed, id: string): (entries: seq<Option<string>>)
    requires ValidTyped(typed)
    ensures |entries| == |DIMENSIONS|
    ensures forall i | 0 <= i < |entries| :: entries[i] == Reading(EntriesFor(typed, id)[i])
  {
    seq(|DIMENSIONS|, i requires 0 <= i < |DIMENSIONS| => Reading(EntriesFor(typed, id)[i]))
  }

  lemma EntriesReadBack(typed: Typed, id: string)
    requires ValidTyped(typed)
    ensures EntriesOn(DIMENSIONS, ScoreLine(typed, id)) == Entered(typed, id)
  {
    DimensionsAreNames();
    forall i | 0 <= i < |DIMENSIONS|
      ensures EntriesOn(DIMENSIONS, ScoreLine(typed, id))[i] == Entered(typed, id)[i]
    {
      MarkFound(DIMENSIONS, EntriesFor(typed, id), i);
    }
  }

  /** The row an answer's entries make, under the id `under`. */
  function RowOf(typed: Typed, id: string, under: string): Result<Option<Marks>, ReviewInvalid>
    requires ValidTyped(typed)
  {
    Verdict(DIMENSIONS, under, Entered(typed, id))
  }

  /** The section with an answer's line gives the row typed on that line, whatever is above. */
  lemma LastReadsBack(typed: Typed, id: string, under: string, text: string, tail: seq<string>)
    requires ValidTyped(typed) && AllHarmless(tail)
    ensures MarksOf(DIMENSIONS, text + Unlines(Fence(ScoreLine(typed, id))) + Unlines(tail), under) == RowOf(typed, id, under)
  {
    ScoreLineClean(typed, id);
    ScoresLineFound(text, ScoreLine(typed, id), tail);
    EntriesReadBack(typed, id);
  }

  lemma {:induction false} TailHarmless(doc: seq<Chunk>, typed: Typed)
    requires ValidTyped(typed) && AllTidy(doc, typed)
    ensures AllHarmless(TailLines(doc))
    decreases |doc|
  {
    if doc != [] && doc[0].Plain? {
      assert Tidy(doc[0], typed);
      TailHarmless(doc[1..], typed);
    }
  }

  // ---------------------------------------------------------------- reading as one fold

  function ReadFrom(marks: Result<map<string, Marks>, ReviewInvalid>, sections: seq<Section>, known: set<string>)
    : Result<map<string, Marks>, ReviewInvalid>
    decreases |sections|
  {
    if sections == [] then marks else ReadFrom(ReadOne(marks, sections[0], known), sections[1..], known)
  }

  lemma {:induction false} ReadFromAppend(marks: Result<map<string, Marks>, ReviewInvalid>, a: seq<Section>, b: seq<Section>,
                                          known: set<string>)
    ensures ReadFrom(marks, a + b, known) == ReadFrom(ReadFrom(marks, a, known), b, known)
    decreases |a|
  {
    if a == [] {
      assert a + b == b;
    } else {
      assert (a + b)[0] == a[0] && (a + b)[1..] == a[1..] + b;
      ReadFromAppend(ReadOne(marks, a[0], known), a[1..], b, known);
    }
  }

  lemma ReadFromOne(marks: Result<map<string, Marks>, ReviewInvalid>, section: Section, known: set<string>)
    ensures ReadFrom(marks, [section], known) == ReadOne(marks, section, known)
  {
    assert [section][1..] == [];
  }

  lemma {:induction false} SectionsFold(sections: seq<Section>, known: set<string>, n: nat)
    requires n <= |sections|
    ensures ReadSections(sections, known, n) == ReadFrom(Ok(map[]), sections[..n], known)
  {
    if n == 0 {
      assert sections[..0] == [];
    } else {
      SectionsFold(sections, known, n - 1);
      assert sections[..n] == sections[..n - 1] + [sections[n - 1]];
      ReadFromAppend(Ok(map[]), sections[..n - 1], [sections[n - 1]], known);
      ReadFromOne(ReadFrom(Ok(map[]), sections[..n - 1], known), sections[n - 1], known);
    }
  }

  /** What should be recorded for printed ids, in order. */
  function Recorded(marks: Result<map<string, Marks>, ReviewInvalid>, ids: seq<string>, typed: Typed)
    : Result<map<string, Marks>, ReviewInvalid>
    requires ValidTyped(typed)
    decreases |ids|
  {
    if ids == [] then marks else Recorded(Record(marks, ids[0], RowOf(typed, ids[0], ids[0])), ids[1..], typed)
  }

  // ---------------------------------------------------------------- which ids are printed

  lemma {:induction false} PrintedAppend(a: seq<Chunk>, b: seq<Chunk>)
    ensures PrintedIds(a + b) == PrintedIds(a) + PrintedIds(b)
    decreases |a|
  {
    if a == [] {
      assert a + b == b;
    } else {
      assert (a + b)[0] == a[0] && (a + b)[1..] == a[1..] + b;
      PrintedAppend(a[1..], b);
    }
  }

  function IdsOf(group: seq<ReviewSheet.Answer>, k: nat): seq<string>
    requires k <= |group|
    decreases |group| - k
  {
    if k == |group| then [] else [group[k].id] + IdsOf(group, k + 1)
  }

  lemma {:induction false} ChunkIds(group: seq<ReviewSheet.Answer>, k: nat, typed: Typed)
    requires |group| <= |LETTERS| && k <= |group| && ValidTyped(typed)
    ensures PrintedIds(AnswerChunks(group, k, typed)) == IdsOf(group, k)
    decreases |group| - k
  {
    if k < |group| {
      ChunkIds(group, k + 1, typed);
      var head := [Plain([""]), Chunk.Answer(Printed(LETTERS[k], group[k].id, group[k].text, ScoreLine(typed, group[k].id)))];
      PrintedAppend(head, AnswerChunks(group, k + 1, typed));
      assert head[1..] == [head[1]] && [head[1]][1..] == [];
    }
  }

  lemma QuestionIds(s: Source, i: nat, typed: Typed)
    requires Shuffles(s) && Printable(s) && i < |s.questions| && ValidTyped(typed)
    ensures PrintedIds(QuestionChunks(s, i, typed)) == IdsOf(Shuffled(s, i), 0)
  {
    assert QuestionPrints(s, i);
    var head := Plain([""] + QuestionLines(i + 1, |s.questions|, s.questions[i]));
    var chunks := AnswerChunks(Shuffled(s, i), 0, typed);
    ChunkIds(Shuffled(s, i), 0, typed);
    PrintedAppend([head] + chunks, [Plain(["", "---"])]);
    PrintedAppend([head], chunks);
    assert [head][1..] == [] && [Plain(["", "---"])][1..] == [];
  }

  /** An answer to question `i`. */
  ghost predicate AskedAt(s: Source, i: int, id: string) {
    0 <= i < |s.questions| && exists a :: a in s.answers && a.questionId == s.questions[i].id && a.id == id
  }

  lemma QuestionIdsExactly(s: Source, i: nat)
    requires Shuffles(s) && Printable(s) && i < |s.questions|
    ensures |IdsOf(Shuffled(s, i), 0)| == 5
    ensures forall id :: id in IdsOf(Shuffled(s, i), 0) <==> AskedAt(s, i, id)
  {
    assert QuestionPrints(s, i);
    var group := Shuffled(s, i);
    ShuffledMembers(s, i);
    IdCount(group, 0);
    IdMembers(group, 0);
    forall id ensures id in IdsOf(group, 0) <==> AskedAt(s, i, id) {
      if AskedAt(s, i, id) {
        var a :| a in s.answers && a.questionId == s.questions[i].id && a.id == id;
        assert a in group;
      }
      if j :| 0 <= j < |group| && group[j].id == id {
        assert group[j] in s.answers;
      }
    }
  }

  /** The ids of the first `n` questions in print order: question by question, each shuffled. */
  function IdsBefore(s: Source, n: nat): seq<string>
    requires Shuffles(s) && n <= |s.questions|
  {
    if n == 0 then [] else IdsBefore(s, n - 1) + IdsOf(Shuffled(s, n - 1), 0)
  }

  function PrintOrder(s: Source): seq<string>
    requires Shuffles(s)
  {
    IdsBefore(s, |s.questions|)
  }

  lemma {:induction false} ChunkIdsBefore(s: Source, n: nat, typed: Typed)
    requires Shuffles(s) && Printable(s) && n <= |s.questions| && ValidTyped(typed)
    ensures PrintedIds(ChunksUpTo(s, n, typed)) == IdsBefore(s, n)
  {
    if n > 0 {
      var before, more := ChunksUpTo(s, n - 1, typed), QuestionChunks(s, n - 1, typed);
      ChunkIdsBefore(s, n - 1, typed);
      QuestionIds(s, n - 1, typed);
      PrintedAppend(before, more);
    }
  }

  lemma {:induction false} IdMembers(group: seq<ReviewSheet.Answer>, k: nat)
    requires k <= |group|
    ensures forall id :: id in IdsOf(group, k) <==> exists j :: k <= j < |group| && group[j].id == id
    decreases |group| - k
  {
    if k < |group| {
      IdMembers(group, k + 1);
    }
  }

  lemma {:induction false} IdCount(group: seq<ReviewSheet.Answer>, k: nat)
    requires k <= |group|
    ensures |IdsOf(group, k)| == |group| - k
    decreases |group| - k
  {
    if k < |group| {
      IdCount(group, k + 1);
    }
  }

  /** An answer to one of the first `n` questions. */
  ghost predicate AskedBefore(s: Source, n: nat, id: string) {
    n > 0 && (AskedBefore(s, n - 1, id) || AskedAt(s, n - 1, id))
  }

  lemma {:induction false} AskedBeforeExactly(s: Source, n: nat, id: string)
    ensures AskedBefore(s, n, id) <==> exists i :: 0 <= i < n && AskedAt(s, i, id)
  {
    if n > 0 {
      AskedBeforeExactly(s, n - 1, id);
      if i :| 0 <= i < n && AskedAt(s, i, id) {
        assert i == n - 1 || (0 <= i < n - 1 && AskedAt(s, i, id));
      }
    }
  }

  lemma {:induction false} IdsUpTo(s: Source, n: nat)
    requires Shuffles(s) && Printable(s) && n <= |s.questions|
    ensures |IdsBefore(s, n)| == 5 * n
    ensures forall id :: id in IdsBefore(s, n) <==> AskedBefore(s, n, id)
  {
    if n > 0 {
      IdsUpTo(s, n - 1);
      QuestionIdsExactly(s, n - 1);
    }
  }

  /** Every answer to a question is printed, and nothing else is, whatever has been typed. */
  lemma PrintedExactly(s: Source, typed: Typed)
    requires Shuffles(s) && Printable(s) && ValidTyped(typed)
    ensures PrintedIds(SheetDoc(s, typed)) == PrintOrder(s)
    ensures |PrintOrder(s)| == 5 * |s.questions|
    ensures forall id :: id in PrintOrder(s) <==> exists i :: AskedAt(s, i, id)
  {
    forall id ensures AskedBefore(s, |s.questions|, id) <==> exists i :: AskedAt(s, i, id) {
      AskedBeforeExactly(s, |s.questions|, id);
    }
    ChunkIdsBefore(s, |s.questions|, typed);
    IdsUpTo(s, |s.questions|);
    assert SheetDoc(s, typed)[1..] == ChunksUpTo(s, |s.questions|, typed);
  }

  /** The ids the reader knows: those of the whole answer set. */
  function Known(s: Source): set<string> {
    set a | a in s.answers :: a.id
  }

  lemma DigestOnSheet(s: Source, typed: Typed)
    requires Shuffles(s) && Printable(s) && Clean(s) && ValidTyped(typed)
    ensures FindDigest(SheetText(s, typed)) == Some(s.digest)
  {
    var rest := Prefixed(PartsUpTo(s, |s.questions|, typed));
    JoinIsPrefixed(Header(s), PartsUpTo(s, |s.questions|, typed));
    NoAngle(s.before);
    RegroupHeader(Unlines(s.before), DigestComment(s.digest), Unlines(s.after), rest);
    DigestFound(Unlines(s.before), s.digest, "\n" + Unlines(s.after) + rest);
  }

  lemma RegroupHeader(before: string, digest: string, after: string, rest: string)
    ensures before + digest + "\n" + after + rest == before + digest + ("\n" + after + rest)
  {
  }

  lemma {:induction false} NoAngle(lines: seq<string>)
    requires forall i | 0 <= i < |lines| :: '<' !in lines[i]
    ensures '<' !in Unlines(lines)
    decreases |lines|
  {
    if lines != [] {
      NoAngle(lines[1..]);
    }
  }

  // ---------------------------------------------------------------- the whole sheet

  lemma HeaderPlain(s: Source)
    requires Clean(s)
    ensures WellFormed(Plain(s.before + [DigestComment(s.digest)] + s.after))
  {
    var d := s.digest;
    assert forall i | 0 <= i < |d| :: d[i] != '\n' by {
      assert d[..7] == "sha256:";
      assert forall i | 0 <= i < 7 :: d[i] == "sha256:"[i];
    }
    assert DigestComment(d)[0] == '<' && "###"[0] == '#';
    assert PlainLine(DigestComment(d));
  }

  lemma PrintedAreKnown(s: Source)
    requires Shuffles(s) && Printable(s)
    ensures forall i | 0 <= i < |PrintOrder(s)| :: PrintOrder(s)[i] in Known(s)
  {
    PrintedExactly(s, map[]);
    forall i | 0 <= i < |PrintOrder(s)| ensures PrintOrder(s)[i] in Known(s) {
      assert PrintOrder(s)[i] in PrintOrder(s);
    }
  }

  /** Reading a clean sheet, for every entry that can be typed and whatever its answers say. */
  lemma ReviewIsFold(s: Source, typed: Typed)
    requires Shuffles(s) && Printable(s) && Clean(s) && ValidTyped(typed)
    ensures s.questions == [] ==> Review(SheetText(s, typed), s.digest, Known(s)) == Err(NoSections)
    ensures s.questions != [] ==>
              Review(SheetText(s, typed), s.digest, Known(s)) == ReadFrom(Ok(map[]), AllSections(SheetDoc(s, typed)), Known(s))
  {
    var doc := SheetDoc(s, typed);
    var chunks := ChunksUpTo(s, |s.questions|, typed);
    DigestOnSheet(s, typed);
    SheetIsDocument(s, typed);
    HeaderPlain(s);
    ChunksTidy(s, |s.questions|, typed);
    TidyIsWellFormed(chunks, typed);
    SplitDocument(doc);
    DocSectionsAre(doc);
    assert doc[1..] == chunks;
    var sections := AllSections(doc);
    SectionsFold(sections, Known(s), |sections|);
    assert sections[..|sections|] == sections;
    PrintedExactly(s, typed);
    SectionForEach(doc);
  }

  lemma {:induction false} SectionForEach(doc: seq<Chunk>)
    ensures PrintedIds(doc) == [] <==> AllSections(doc) == []
    decreases |doc|
  {
    if doc != [] {
      SectionForEach(doc[1..]);
    }
  }
}
