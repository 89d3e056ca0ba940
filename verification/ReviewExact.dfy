/** When a sheet reads back as it was typed, exactly. */
module ReviewExact {
  import opened Prelude
  import opened SheetScan
  import opened SheetSections
  import opened ReviewSheet
  import opened ReviewParser
  import opened ReviewRoundTrip
  import opened ReviewReadBack
  import opened ReviewVerdicts

  // ---------------------------------------------------------------- something said of every answer

  /** `p` holds of the id and the text of every answer in the document. */
  ghost predicate Every(doc: seq<Chunk>, p: (string, string) -> bool) {
    doc == [] || ((doc[0].Answer? ==> p(doc[0].printed.id, doc[0].printed.text)) && Every(doc[1..], p))
  }

  lemma {:induction false} EveryAppend(a: seq<Chunk>, b: seq<Chunk>, p: (string, string) -> bool)
    ensures Every(a + b, p) <==> Every(a, p) && Every(b, p)
    decreases |a|
  {
    if a == [] {
      assert a + b == b;
    } else {
      assert (a + b)[0] == a[0] && (a + b)[1..] == a[1..] + b;
      EveryAppend(a[1..], b, p);
    }
  }

  lemma EveryPlain(lines: seq<string>, p: (string, string) -> bool)
    ensures Every([Plain(lines)], p)
  {
    assert [Plain(lines)][1..] == [];
  }

  lemma {:induction false} EveryGroup(group: seq<ReviewSheet.Answer>, k: nat, typed: Typed, p: (string, string) -> bool)
    requires |group| <= |LETTERS| && k <= |group| && ValidTyped(typed)
    ensures Every(AnswerChunks(group, k, typed), p) <==> forall j | k <= j < |group| :: p(group[j].id, group[j].text)
    decreases |group| - k
  {
    if k < |group| {
      EveryGroup(group, k + 1, typed, p);
      EveryOne(LETTERS[k], group[k], ScoreLine(typed, group[k].id), AnswerChunks(group, k + 1, typed), p);
    }
  }

  lemma EveryOne(letter: char, a: ReviewSheet.Answer, scores: string, rest: seq<Chunk>, p: (string, string) -> bool)
    ensures Every([Plain([""]), Chunk.Answer(Printed(letter, a.id, a.text, scores))] + rest, p)
       <==> p(a.id, a.text) && Every(rest, p)
  {
    var answer := Chunk.Answer(Printed(letter, a.id, a.text, scores));
    var doc := [Plain([""]), answer] + rest;
    assert doc[1..] == [answer] + rest && ([answer] + rest)[1..] == rest;
  }

  ghost predicate AnswersQuestion(s: Source, i: int, a: ReviewSheet.Answer) {
    0 <= i < |s.questions| && a in s.answers && a.questionId == s.questions[i].id
  }

  /** The answers a sheet prints. */
  ghost predicate IsPrinted(s: Source, a: ReviewSheet.Answer) {
    exists i :: AnswersQuestion(s, i, a)
  }

  ghost predicate EveryAnswer(s: Source, i: int, p: (string, string) -> bool) {
    forall a | AnswersQuestion(s, i, a) :: p(a.id, a.text)
  }

  lemma EveryQuestion(s: Source, i: nat, typed: Typed, p: (string, string) -> bool)
    requires Shuffles(s) && Printable(s) && i < |s.questions| && ValidTyped(typed)
    ensures Every(QuestionChunks(s, i, typed), p) <==> EveryAnswer(s, i, p)
  {
    assert QuestionPrints(s, i);
    var group := Shuffled(s, i);
    var head, chunks := [""] + QuestionLines(i + 1, |s.questions|, s.questions[i]), AnswerChunks(group, 0, typed);
    EveryPlain(head, p);
    EveryPlain(["", "---"], p);
    EveryAppend([Plain(head)], chunks, p);
    EveryAppend([Plain(head)] + chunks, [Plain(["", "---"])], p);
    EveryGroup(group, 0, typed, p);
    ShuffledMembers(s, i);
    assert forall j | 0 <= j < |group| :: group[j] in group;
  }

  ghost predicate EveryBefore(s: Source, n: nat, p: (string, string) -> bool) {
    n == 0 || (EveryBefore(s, n - 1, p) && EveryAnswer(s, n - 1, p))
  }

  lemma {:induction false} EveryBeforeExactly(s: Source, n: nat, p: (string, string) -> bool)
    ensures EveryBefore(s, n, p) <==> forall i | 0 <= i < n :: EveryAnswer(s, i, p)
  {
    if n > 0 {
      EveryBeforeExactly(s, n - 1, p);
    }
  }

  lemma {:induction false} EveryUpTo(s: Source, n: nat, typed: Typed, p: (string, string) -> bool)
    requires Shuffles(s) && Printable(s) && n <= |s.questions| && ValidTyped(typed)
    ensures Every(ChunksUpTo(s, n, typed), p) <==> EveryBefore(s, n, p)
  {
    if n > 0 {
      EveryUpTo(s, n - 1, typed, p);
      EveryQuestion(s, n - 1, typed, p);
      EveryAppend(ChunksUpTo(s, n - 1, typed), QuestionChunks(s, n - 1, typed), p);
    }
  }

  lemma EveryPrinted(s: Source, typed: Typed, p: (string, string) -> bool)
    requires Shuffles(s) && Printable(s) && ValidTyped(typed)
    ensures Every(ChunksUpTo(s, |s.questions|, typed), p) <==> forall a | IsPrinted(s, a) :: p(a.id, a.text)
  {
    EveryUpTo(s, |s.questions|, typed, p);
    EveryBeforeExactly(s, |s.questions|, p);
    if forall i | 0 <= i < |s.questions| :: EveryAnswer(s, i, p) {
      forall a | IsPrinted(s, a) ensures p(a.id, a.text) {
        var i :| AnswersQuestion(s, i, a);
        assert EveryAnswer(s, i, p);
      }
    }
    if forall a | IsPrinted(s, a) :: p(a.id, a.text) {
      forall i | 0 <= i < |s.questions| ensures EveryAnswer(s, i, p) {
        assert forall a | AnswersQuestion(s, i, a) :: IsPrinted(s, a);
      }
    }
  }

  // ---------------------------------------------------------------- answers that record nothing

  /** Sections that can be read, and record only what `allowed` holds of. */
  ghost predicate Taken(sections: seq<Section>, known: set<string>, allowed: (string, Marks) -> bool) {
    forall section | section in sections ::
      && section.id in known
      && var row := MarksOf(DIMENSIONS, section.body, section.id);
         row.Ok? && (row.value.Some? ==> allowed(section.id, row.value.value))
  }

  /** Any marks under these ids. */
  ghost function Under(keys: set<string>): (string, Marks) -> bool {
    (id, marks) => id in keys
  }

  /** Sections that can be read and record nothing at all. */
  ghost predicate Silent(sections: seq<Section>, known: set<string>) {
    Taken(sections, known, Under({}))
  }

  /** An answer that leaves its own row alone: it has no heading, or everything its headings cut
      off records nothing and its last heading names the answer itself. */
  ghost predicate Inert(id: string, text: string, known: set<string>) {
    Silent(Inner(id, text), known) && LastId(id, text) == id
  }

  lemma HeadingFreeIsInert(id: string, text: string, known: set<string>)
    requires HeadingFree(text)
    ensures Inert(id, text, known)
  {
  }

  lemma TakenAppend(a: seq<Section>, b: seq<Section>, known: set<string>, allowed: (string, Marks) -> bool)
    ensures Taken(a + b, known, allowed) <==> Taken(a, known, allowed) && Taken(b, known, allowed)
  {
    assert forall section :: section in a + b <==> section in a || section in b;
  }

  lemma TakenOne(section: Section, known: set<string>, allowed: (string, Marks) -> bool)
    ensures Taken([section], known, allowed) <==>
              && section.id in known
              && var row := MarksOf(DIMENSIONS, section.body, section.id);
                 row.Ok? && (row.value.Some? ==> allowed(section.id, row.value.value))
  {
    assert section in [section];
  }

  lemma TakenCons(sections: seq<Section>, known: set<string>, allowed: (string, Marks) -> bool)
    requires sections != []
    ensures Taken(sections, known, allowed) <==> Taken([sections[0]], known, allowed) && Taken(sections[1..], known, allowed)
  {
    assert sections == [sections[0]] + sections[1..];
    TakenAppend([sections[0]], sections[1..], known, allowed);
  }

  lemma {:induction false} SilentChangesNothing(marks: Result<map<string, Marks>, ReviewInvalid>, sections: seq<Section>,
                                                known: set<string>)
    requires Silent(sections, known)
    ensures ReadFrom(marks, sections, known) == marks
    decreases |sections|
  {
    if sections != [] {
      TakenCons(sections, known, Under({}));
      TakenOne(sections[0], known, Under({}));
      SilentChangesNothing(marks, sections[1..], known);
    }
  }

  lemma {:induction false} FaultsStay(error: ReviewInvalid, sections: seq<Section>, known: set<string>)
    ensures ReadFrom(Err(error), sections, known) == Err(error)
    decreases |sections|
  {
    if sections != [] {
      FaultsStay(error, sections[1..], known);
    }
  }

  /** Nothing recorded is forgotten: a successful reading holds every id that gave marks. */
  lemma {:induction false} RecordedIsKept(marks: Result<map<string, Marks>, ReviewInvalid>, sections: seq<Section>,
                                          known: set<string>)
    requires ReadFrom(marks, sections, known).Ok?
    ensures marks.Ok? && marks.value.Keys <= ReadFrom(marks, sections, known).value.Keys
    ensures Taken(sections, known, Under(ReadFrom(marks, sections, known).value.Keys))
    decreases |sections|
  {
    if sections != [] {
      var next := ReadOne(marks, sections[0], known);
      if next.Err? {
        FaultsStay(next.error, sections[1..], known);
      } else {
        RecordedIsKept(next, sections[1..], known);
        var keys := ReadFrom(next, sections[1..], known).value.Keys;
        TakenOne(sections[0], known, Under(keys));
        TakenCons(sections, known, Under(keys));
      }
    }
  }

  /** Conversely, sections taken so can all be read, and what is recorded is allowed. */
  lemma {:induction false} TakenIsRead(marks: map<string, Marks>, sections: seq<Section>, known: set<string>,
                                       allowed: (string, Marks) -> bool)
    requires Taken(sections, known, allowed) && forall id | id in marks :: allowed(id, marks[id])
    ensures var r := ReadFrom(Ok(marks), sections, known);
            r.Ok? && forall id | id in r.value :: allowed(id, r.value[id])
    decreases |sections|
  {
    if sections != [] {
      TakenCons(sections, known, allowed);
      TakenOne(sections[0], known, allowed);
      TakenIsRead(ReadOne(Ok(marks), sections[0], known).value, sections[1..], known, allowed);
    }
  }

  // ---------------------------------------------------------------- one answer at a time

  /** What `Taken` says of an answer: of what its headings cut off, and of its row. */
  ghost function Takes(typed: Typed, known: set<string>, allowed: (string, Marks) -> bool): (string, string) -> bool
    requires ValidTyped(typed)
  {
    (id, text) => TakesAnswer(typed, known, allowed, id, text)
  }

  ghost predicate TakesAnswer(typed: Typed, known: set<string>, allowed: (string, Marks) -> bool, id: string, text: string) {
    && ValidTyped(typed)
    && Taken(Inner(id, text), known, allowed)
    && LastId(id, text) in known
    && var row := RowOf(typed, id, LastId(id, text)); row.Ok? && (row.value.Some? ==> allowed(LastId(id, text), row.value.value))
  }

  lemma {:induction false} TakenByAnswer(doc: seq<Chunk>, typed: Typed, known: set<string>, allowed: (string, Marks) -> bool)
    requires ValidTyped(typed) && AllTidy(doc, typed)
    ensures Taken(AllSections(doc), known, allowed) <==> Every(doc, Takes(typed, known, allowed))
    decreases |doc|
  {
    if doc != [] {
      TakenByAnswer(doc[1..], typed, known, allowed);
      if doc[0].Answer? {
        var p := doc[0].printed;
        var inner, last, rest := Inner(p.id, p.text), LastSection(p, Unlines(TailLines(doc[1..]))), AllSections(doc[1..]);
        TakenAppend(inner + [last], rest, known, allowed);
        TakenAppend(inner, [last], known, allowed);
        TakenOne(last, known, allowed);
        TailHarmless(doc[1..], typed);
        LastReadsBack(typed, p.id, LastId(p.id, p.text), LastText(p.text), TailLines(doc[1..]));
      }
    }
  }

  ghost function Leaves(known: set<string>): (string, string) -> bool {
    (id, text) => Inert(id, text, known)
  }

  /** If every answer leaves its row alone, the fold over the sections is the record of the
      printed rows. */
  lemma {:induction false} InertReadsBack(marks: Result<map<string, Marks>, ReviewInvalid>, doc: seq<Chunk>, typed: Typed,
                                          known: set<string>)
    requires ValidTyped(typed) && AllTidy(doc, typed) && Every(doc, Leaves(known))
    requires forall id | id in PrintedIds(doc) :: id in known
    ensures ReadFrom(marks, AllSections(doc), known) == Recorded(marks, PrintedIds(doc), typed)
    decreases |doc|
  {
    if doc != [] {
      if doc[0].Plain? {
        InertReadsBack(marks, doc[1..], typed, known);
      } else {
        var p := doc[0].printed;
        var tail := TailLines(doc[1..]);
        var ids := PrintedIds(doc[1..]);
        assert PrintedIds(doc) == [p.id] + ids;
        TailHarmless(doc[1..], typed);
        InertAnswer(marks, p, tail, AllSections(doc[1..]), typed, known);
        InertReadsBack(Record(marks, p.id, RowOf(typed, p.id, p.id)), doc[1..], typed, known);
        RecordedCons(marks, p.id, ids, typed);
      }
    }
  }

  lemma InertAnswer(marks: Result<map<string, Marks>, ReviewInvalid>, p: Printed, tail: seq<string>, rest: seq<Section>,
                    typed: Typed, known: set<string>)
    requires ValidTyped(typed) && p.scores == ScoreLine(typed, p.id) && AllHarmless(tail)
    requires Inert(p.id, p.text, known) && p.id in known
    ensures ReadFrom(marks, Inner(p.id, p.text) + [LastSection(p, Unlines(tail))] + rest, known)
         == ReadFrom(Record(marks, p.id, RowOf(typed, p.id, p.id)), rest, known)
  {
    var inner, last := Inner(p.id, p.text), LastSection(p, Unlines(tail));
    LastReadsBack(typed, p.id, p.id, LastText(p.text), tail);
    SilentChangesNothing(marks, inner, known);
    ReadFromAppend(marks, inner + [last], rest, known);
    ReadFromAppend(marks, inner, [last], known);
    ReadFromOne(marks, last, known);
  }

  lemma RecordedCons(marks: Result<map<string, Marks>, ReviewInvalid>, id: string, ids: seq<string>, typed: Typed)
    requires ValidTyped(typed)
    ensures Recorded(marks, [id] + ids, typed) == Recorded(Record(marks, id, RowOf(typed, id, id)), ids, typed)
  {
    assert ([id] + ids)[1..] == ids;
  }

  // ---------------------------------------------------------------- the round trip

  ghost predicate InertAnswers(s: Source) {
    forall a | IsPrinted(s, a) :: Inert(a.id, a.text, Known(s))
  }

  lemma SheetTidy(s: Source, typed: Typed)
    requires Shuffles(s) && Printable(s) && Clean(s) && ValidTyped(typed)
    ensures AllTidy(ChunksUpTo(s, |s.questions|, typed), typed)
    ensures AllSections(SheetDoc(s, typed)) == AllSections(ChunksUpTo(s, |s.questions|, typed))
    ensures PrintedIds(ChunksUpTo(s, |s.questions|, typed)) == PrintOrder(s)
  {
    ChunksTidy(s, |s.questions|, typed);
    assert SheetDoc(s, typed)[1..] == ChunksUpTo(s, |s.questions|, typed);
    ChunkIdsBefore(s, |s.questions|, typed);
  }

  /** A sheet whose answers leave their rows alone reads back row by row. */
  lemma SheetReadsBack(s: Source, typed: Typed)
    requires Shuffles(s) && Printable(s) && Clean(s) && ValidTyped(typed) && InertAnswers(s) && s.questions != []
    ensures Review(SheetText(s, typed), s.digest, Known(s)) == Recorded(Ok(map[]), PrintOrder(s), typed)
  {
    var known, chunks := Known(s), ChunksUpTo(s, |s.questions|, typed);
    ReviewIsFold(s, typed);
    SheetTidy(s, typed);
    EveryPrinted(s, typed, Leaves(known));
    PrintedAreKnown(s);
    InertReadsBack(Ok(map[]), chunks, typed, known);
  }

  /** The round trip. A sheet with anything typed into its blanks, on one line and without an
      equals sign, parses if and only if every row is untouched or completely filled with
      numbers from 0 to 10, and then it yields exactly the filled rows, each mark a tenth of
      the number read. */
  lemma MarkedSheetReadsBack(s: Source, typed: Typed)
    requires Shuffles(s) && Printable(s) && Clean(s) && ValidTyped(typed) && InertAnswers(s) && s.questions != []
    ensures var r := Review(SheetText(s, typed), s.digest, Known(s));
            && (r.Ok? <==> AllReadable(PrintOrder(s), typed))
            && (r.Ok? ==> r.value.Keys == Touched(PrintOrder(s), typed) && AllHaveMarks(r.value, typed))
  {
    SheetReadsBack(s, typed);
    RecordedExactly(map[], PrintOrder(s), typed);
  }

  /** The row of `id` filled with zeros, and nothing else typed. */
  function OnlyZeros(id: string): (typed: Typed)
    ensures ValidTyped(typed)
  {
    map[id := seq(|DIMENSIONS|, _ => "0")]
  }

  lemma ZerosAreRead(id: string, other: string)
    ensures Untouched(Entered(OnlyZeros(id), other)) <==> other != id
    ensures Readable(OnlyZeros(id), other)
  {
    ReadAsTyped("0");
    ReadAsTyped("_");
    assert Value("0") == 0;
    var row := Entered(OnlyZeros(id), other);
    if other == id {
      assert row[0] == Some("0");
    }
  }

  /** If the sheet reads back with only this answer's row filled, the marks must have been found
      under the answer's own id. */
  lemma ZerosTellId(s: Source, a: ReviewSheet.Answer)
    requires Shuffles(s) && Printable(s) && Clean(s) && s.questions != [] && IsPrinted(s, a)
    requires var typed := OnlyZeros(a.id);
             Review(SheetText(s, typed), s.digest, Known(s)) == Recorded(Ok(map[]), PrintOrder(s), typed)
    ensures LastId(a.id, a.text) == a.id
  {
    var typed, known := OnlyZeros(a.id), Known(s);
    var chunks := ChunksUpTo(s, |s.questions|, typed);
    forall id ensures Readable(typed, id) && (Untouched(Entered(typed, id)) <==> id != a.id) {
      ZerosAreRead(a.id, id);
    }
    RecordedExactly(map[], PrintOrder(s), typed);
    ReviewIsFold(s, typed);
    SheetTidy(s, typed);
    RecordedIsKept(Ok(map[]), AllSections(chunks), known);
    var keys := ReadFrom(Ok(map[]), AllSections(chunks), known).value.Keys;
    TakenByAnswer(chunks, typed, known, Under(keys));
    EveryPrinted(s, typed, Takes(typed, known, Under(keys)));
    assert Takes(typed, known, Under(keys))(a.id, a.text);
    RowExactly(typed, a.id, LastId(a.id, a.text));
    assert LastId(a.id, a.text) in keys;
  }

  /** A sheet nobody has typed into parses to no marks if and only if everything the answers'
      own headings cut off can be read and records nothing. */
  lemma FreshSheetExactly(s: Source)
    requires Shuffles(s) && Printable(s) && Clean(s)
    ensures Review(SheetText(s, map[]), s.digest, Known(s)) == Ok(map[]) <==>
              && s.questions != []
              && forall a | IsPrinted(s, a) :: Silent(Inner(a.id, a.text), Known(s)) && LastId(a.id, a.text) in Known(s)
  {
    if s.questions != [] {
      var known := Known(s);
      FreshSheetTaken(s);
      EveryPrinted(s, map[], Takes(map[], known, Under({})));
      forall a | IsPrinted(s, a)
        ensures Takes(map[], known, Under({}))(a.id, a.text) <==>
                Silent(Inner(a.id, a.text), known) && LastId(a.id, a.text) in known
      {
        BlankRow(a.id, LastId(a.id, a.text));
      }
    }
    ReviewIsFold(s, map[]);
  }

  lemma BlankRow(id: string, under: string)
    ensures RowOf(map[], id, under) == Ok(None)
  {
    ReadAsTyped("_");
    RowExactly(map[], id, under);
  }

  lemma FreshSheetTaken(s: Source)
    requires Shuffles(s) && Printable(s) && Clean(s) && s.questions != []
    ensures Review(SheetText(s, map[]), s.digest, Known(s)) == Ok(map[]) <==>
            Every(ChunksUpTo(s, |s.questions|, map[]), Takes(map[], Known(s), Under({})))
  {
    var known, sections := Known(s), AllSections(ChunksUpTo(s, |s.questions|, map[]));
    ReviewIsFold(s, map[]);
    SheetTidy(s, map[]);
    TakenByAnswer(ChunksUpTo(s, |s.questions|, map[]), map[], known, Under({}));
    if ReadFrom(Ok(map[]), sections, known) == Ok(map[]) {
      RecordedIsKept(Ok(map[]), sections, known);
    }
    if Taken(sections, known, Under({})) {
      SilentChangesNothing(Ok(map[]), sections, known);
    }
  }

  /** A sheet reads back as it was typed, for every entry that can be typed, if and only if the
      answers on it leave their own rows alone. */
  lemma ReadsBackExactly(s: Source)
    requires Shuffles(s) && Printable(s) && Clean(s)
    ensures (forall typed: Typed | ValidTyped(typed) ::
               Review(SheetText(s, typed), s.digest, Known(s)) == Recorded(Ok(map[]), PrintOrder(s), typed))
       <==> s.questions != [] && InertAnswers(s)
  {
    if s.questions != [] && InertAnswers(s) {
      forall typed: Typed | ValidTyped(typed)
        ensures Review(SheetText(s, typed), s.digest, Known(s)) == Recorded(Ok(map[]), PrintOrder(s), typed)
      {
        SheetReadsBack(s, typed);
      }
    }
    if forall typed: Typed | ValidTyped(typed) ::
         Review(SheetText(s, typed), s.digest, Known(s)) == Recorded(Ok(map[]), PrintOrder(s), typed)
    {
      FreshRecordsNothing(PrintOrder(s));
      assert Review(SheetText(s, map[]), s.digest, Known(s)) == Recorded(Ok(map[]), PrintOrder(s), map[]);
      FreshSheetExactly(s);
      forall a | IsPrinted(s, a) ensures Inert(a.id, a.text, Known(s)) {
        assert ValidTyped(OnlyZeros(a.id));
        ZerosTellId(s, a);
      }
    }
  }

  lemma {:induction false} FreshRecordsNothing(ids: seq<string>)
    ensures Recorded(Ok(map[]), ids, map[]) == Ok(map[])
    decreases |ids|
  {
    if ids != [] {
      BlankRow(ids[0], ids[0]);
      FreshRecordsNothing(ids[1..]);
    }
  }

  /** A sheet printed from other answers is refused before anything on it is read. */
  lemma StaleSheetRefused(s: Source, typed: Typed, current: string)
    requires Shuffles(s) && Printable(s) && Clean(s) && ValidTyped(typed) && current != s.digest
    ensures Review(SheetText(s, typed), current, Known(s)) == Err(StaleDigest(s.digest))
  {
    DigestOnSheet(s, typed);
  }
}
