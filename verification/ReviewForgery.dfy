/** The failure that makes the condition of the round trip necessary: an answer that holds a
    SCORES line and a heading records marks on a sheet nobody has typed into. */
module ReviewForgery {
  import opened Prelude
  import opened SheetScan
  import opened SheetSections
  import opened SheetMarks
  import opened ReviewSheet
  import opened ReviewParser
  import opened ReviewRoundTrip
  import opened ReviewReadBack
  import opened ReviewVerdicts
  import opened ReviewExact

  /** A filled line, and below it the heading of some answer. */
  function Forged(entries: seq<string>, named: string): string
    requires |entries| == |DIMENSIONS|
  {
    ScoresText(DIMENSIONS, entries) + "\n" + HeadingLine('A', named)
  }

  ghost predicate Fills(entries: seq<string>) {
    |entries| == |DIMENSIONS| && forall i | 0 <= i < |entries| :: Digits(entries[i]) && Value(entries[i]) <= 10
  }

  lemma FillsTyped(entries: seq<string>)
    requires Fills(entries)
    ensures ValidTyped(map["" := entries])
  {
    forall i | 0 <= i < |entries| ensures IsTyped(entries[i]) {
      assert forall j | 0 <= j < |entries[i]| :: IsDigit(entries[i][j]);
    }
  }

  /** Its parts: the line is cut off, and read under the answer's own id; the row printed below
      goes under the id named. */
  lemma ForgedSplit(entries: seq<string>, named: string, id: string)
    requires Fills(entries) && IsId(named)
    ensures var text := Forged(entries, named);
            && Inner(id, text) == [Section(id, "\n\n" + (ScoresText(DIMENSIONS, entries) + "\n"))]
            && LastId(id, text) == named
  {
    var line := ScoresText(DIMENSIONS, entries);
    FillsTyped(entries);
    ScoreLineClean(map["" := entries], "");
    SplitPlainLine(line, HeadingLine('A', named));
    SplitHeading('A', named, "");
    assert HeadingLine('A', named) + "" == HeadingLine('A', named);
    var inside := Split(Forged(entries, named), true);
    assert inside == Parsed(line + "\n" + "", [Section(named, "")]);
    assert line + "\n" + "" == line + "\n";
    assert inside.sections[..0] == [];
  }

  /** The cut-off section is a filled row of its own. */
  lemma ForgedLineFound(line: string)
    requires "SCORES" <= line && OneLine(line)
    ensures ScoresLine("\n\n" + (line + "\n")) == Some(line)
  {
    var lines := ["", "", line];
    SplitUnlines(lines);
    ThreeLines(line);
    assert Candidates(lines) == [line] by {
      LastCandidate(["", ""], line, []);
      BlankIsQuiet();
      QuietLines(["", ""]);
      assert ["", ""] + ([line] + []) == lines;
    }
  }

  lemma BlankIsQuiet()
    ensures Quiet("")
  {
  }

  lemma ThreeLines(line: string)
    ensures Unlines(["", "", line]) == "\n\n" + (line + "\n")
  {
    var lines := ["", "", line];
    assert lines[1..] == ["", line] && lines[1..][1..] == [line] && [line][1..] == [];
    UnlinesOne(line);
    assert Unlines(["", line]) == "\n" + (line + "\n");
  }

  lemma ForgedRow(entries: seq<string>, id: string) returns (marks: Marks)
    requires Fills(entries)
    ensures MarksOf(DIMENSIONS, "\n\n" + (ScoresText(DIMENSIONS, entries) + "\n"), id) == Ok(Some(marks))
    ensures forall i | 0 <= i < |DIMENSIONS| ::
              DIMENSIONS[i] in marks && marks[DIMENSIONS[i]] == Value(entries[i]) as real / 10.0
  {
    var typed := map["" := entries];
    FillsTyped(entries);
    ScoreLineClean(typed, "");
    ForgedLineFound(ScoresText(DIMENSIONS, entries));
    EntriesReadBack(typed, "");
    var row := Entered(typed, "");
    forall i | 0 <= i < |DIMENSIONS| ensures row[i] == Some(entries[i]) {
      ReadAsTyped(entries[i]);
    }
    RowExactly(typed, "", id);
    assert !Untouched(row) && Complete(row) by {
      assert row[0] == Some(entries[0]) && entries[0] != "_";
    }
    marks := RowOf(typed, "", id).value.value;
  }

  /** Only these marks, under this id. */
  ghost function Only(id: string, marks: Marks): (string, Marks) -> bool {
    (other, found) => other == id && found == marks
  }

  /** An answer of the sheet is this one or holds no heading. */
  ghost predicate OnlyForged(s: Source, a: ReviewSheet.Answer) {
    forall b | IsPrinted(s, b) && b != a :: HeadingFree(b.text)
  }

  lemma HeadingFreeTakes(id: string, text: string, known: set<string>, allowed: (string, Marks) -> bool)
    requires HeadingFree(text)
    ensures Taken(Inner(id, text), known, allowed) && LastId(id, text) == id
  {
  }

  lemma BlankRowTakes(id: string, text: string, known: set<string>, allowed: (string, Marks) -> bool)
    requires Taken(Inner(id, text), known, allowed) && LastId(id, text) in known
    ensures TakesAnswer(map[], known, allowed, id, text)
  {
    BlankRow(id, LastId(id, text));
  }

  lemma ForgedTaken(s: Source, a: ReviewSheet.Answer, first: Section, marks: Marks)
    requires Shuffles(s) && Printable(s) && Clean(s) && s.questions != [] && OnlyForged(s, a)
    requires Inner(a.id, a.text) == [first] && first.id == a.id && a.id in Known(s) && LastId(a.id, a.text) in Known(s)
    requires MarksOf(DIMENSIONS, first.body, a.id) == Ok(Some(marks))
    ensures Taken(AllSections(ChunksUpTo(s, |s.questions|, map[])), Known(s), Only(a.id, marks))
  {
    var known, chunks, allowed := Known(s), ChunksUpTo(s, |s.questions|, map[]), Only(a.id, marks);
    TakenOne(first, known, allowed);
    forall b | IsPrinted(s, b) ensures Takes(map[], known, allowed)(b.id, b.text) {
      assert b in s.answers && b.id in known;
      if b != a {
        HeadingFreeTakes(b.id, b.text, known, allowed);
      }
      BlankRowTakes(b.id, b.text, known, allowed);
    }
    EveryPrinted(s, map[], Takes(map[], known, allowed));
    SheetTidy(s, map[]);
    TakenByAnswer(chunks, map[], known, allowed);
  }

  /** On any sheet with one such answer, naming any answer that is known, the others holding no
      heading: with nothing typed the reader records the forged marks, and nothing else. */
  lemma ForgedMarksRecorded(s: Source, a: ReviewSheet.Answer, entries: seq<string>, named: string) returns (marks: Marks)
    requires Shuffles(s) && Printable(s) && Clean(s) && IsPrinted(s, a) && OnlyForged(s, a)
    requires Fills(entries) && IsId(named) && named in Known(s) && a.text == Forged(entries, named)
    ensures Review(SheetText(s, map[]), s.digest, Known(s)) == Ok(map[a.id := marks])
    ensures forall i | 0 <= i < |DIMENSIONS| ::
              DIMENSIONS[i] in marks && marks[DIMENSIONS[i]] == Value(entries[i]) as real / 10.0
  {
    marks := ForgedRow(entries, a.id);
    ForgedSplit(entries, named, a.id);
    OneForgery(s, a, Inner(a.id, a.text)[0], marks);
  }

  lemma OneForgery(s: Source, a: ReviewSheet.Answer, first: Section, marks: Marks)
    requires Shuffles(s) && Printable(s) && Clean(s) && IsPrinted(s, a) && OnlyForged(s, a)
    requires Inner(a.id, a.text) == [first] && first.id == a.id && LastId(a.id, a.text) in Known(s)
    requires MarksOf(DIMENSIONS, first.body, a.id) == Ok(Some(marks))
    ensures Review(SheetText(s, map[]), s.digest, Known(s)) == Ok(map[a.id := marks])
  {
    var sections := AllSections(ChunksUpTo(s, |s.questions|, map[]));
    assert a in s.answers && a.id in Known(s);
    ForgedTaken(s, a, first, marks);
    TakenIsRead(map[], sections, Known(s), Only(a.id, marks));
    ReviewIsFold(s, map[]);
    SheetTidy(s, map[]);
    NotSilent(s, a, marks);
    OneEntry(ReadFrom(Ok(map[]), sections, Known(s)).value, a.id, marks);
  }

  lemma OneEntry(found: map<string, Marks>, id: string, marks: Marks)
    requires found != map[] && forall other | other in found :: Only(id, marks)(other, found[other])
    ensures found == map[id := marks]
  {
    var other :| other in found;
    assert Only(id, marks)(other, found[other]);
    assert forall k | k in found :: Only(id, marks)(k, found[k]) && k == id && found[k] == marks;
  }

  lemma NotSilent(s: Source, a: ReviewSheet.Answer, marks: Marks)
    requires Shuffles(s) && Printable(s) && Clean(s) && IsPrinted(s, a)
    requires Inner(a.id, a.text) != []
    requires var first := Inner(a.id, a.text)[0]; first.id == a.id && MarksOf(DIMENSIONS, first.body, a.id) == Ok(Some(marks))
    ensures Review(SheetText(s, map[]), s.digest, Known(s)) != Ok(map[])
  {
    FreshSheetExactly(s);
    assert Inner(a.id, a.text)[0] in Inner(a.id, a.text);
  }

  // ---------------------------------------------------------------- a sheet

  function InOrder(i: nat, n: nat): seq<nat> {
    seq(n, k requires 0 <= k < n => k)
  }

  lemma InOrderPermutes(i: nat, n: nat)
    ensures Sequences.IsPermutation(InOrder(i, n), n)
  {
    var order := InOrder(i, n);
    forall k | 0 <= k < n ensures k in order {
      assert order[k] == k;
    }
  }

  lemma {:induction false} GroupAll(answers: seq<ReviewSheet.Answer>, questionId: string)
    requires forall i | 0 <= i < |answers| :: answers[i].questionId == questionId
    ensures Group(answers, questionId) == answers
    decreases |answers|
  {
    if answers != [] {
      var init := answers[..|answers| - 1];
      GroupAll(init, questionId);
      assert answers == init + [answers[|answers| - 1]];
    }
  }

  /** One question and five answers to it, printed in order. */
  lemma OneQuestionPrints(s: Source)
    requires |s.questions| == 1 && s.questions[0].role != "" && |s.answers| == 5
    requires forall i | 0 <= i < |s.answers| :: s.answers[i].questionId == s.questions[0].id
    requires forall i: nat, n: nat :: s.shuffle(i, n) == InOrder(i, n)
    ensures Shuffles(s) && Printable(s)
    ensures forall i | 0 <= i < |s.answers| :: IsPrinted(s, s.answers[i])
  {
    forall i: nat, n: nat ensures Permutes(s.shuffle, i, n) {
      InOrderPermutes(i, n);
      assert s.shuffle(i, n) == InOrder(i, n);
    }
    GroupAll(s.answers, s.questions[0].id);
    assert Permutes(s.shuffle, 0, 5);
    assert |Shuffled(s, 0)| == 5;
    assert QuestionPrints(s, 0);
    forall i | 0 <= i < |s.answers| ensures IsPrinted(s, s.answers[i]) {
      assert AnswersQuestion(s, 0, s.answers[i]);
    }
  }

  lemma PlainSourceIsClean(s: Source)
    requires s.before == [] && s.after == [] && s.digest == "sha256:0" && |s.questions| == 1
    requires s.questions[0] == Question("q", "E", "t", "d", "w", [])
    requires forall i | 0 <= i < |s.answers| :: IsId(s.answers[i].id)
    ensures Clean(s)
  {
    assert s.digest[..7] == "sha256:";
    assert SingleLines(s.questions[0]);
  }

  /** A sheet with these five texts for answers. */
  lemma SheetOf(text: string) returns (s: Source)
    ensures Shuffles(s) && Printable(s) && Clean(s) && |s.answers| == 5
    ensures forall i | 0 <= i < |s.answers| :: IsPrinted(s, s.answers[i])
    ensures s.answers[0].id == "a" && s.answers[0].text == text && s.answers[1].id == "b"
    ensures forall i | 1 <= i < |s.answers| :: s.answers[i].text == ""
  {
    var answers := [
      ReviewSheet.Answer("a", "q", "", text), ReviewSheet.Answer("b", "q", "", ""), ReviewSheet.Answer("c", "q", "", ""),
      ReviewSheet.Answer("d", "q", "", ""), ReviewSheet.Answer("e", "q", "", "")];
    s := Source([], [], "sha256:0", [Question("q", "E", "t", "d", "w", [])], answers, InOrder);
    OneQuestionPrints(s);
    PlainSourceIsClean(s);
  }

  lemma Nines() returns (entries: seq<string>)
    ensures Fills(entries) && forall i | 0 <= i < |entries| :: Value(entries[i]) == 9
  {
    entries := seq(|DIMENSIONS|, _ => "9");
    assert Value("9") == 9 && Digits("9");
  }

  /** There is a printable sheet that, with nothing typed into it, records five nines. */
  lemma FreshSheetWithMarks() returns (s: Source, marks: Marks)
    ensures Shuffles(s) && Printable(s) && Clean(s)
    ensures Review(SheetText(s, map[]), s.digest, Known(s)) == Ok(map["a" := marks])
    ensures forall i | 0 <= i < |DIMENSIONS| :: DIMENSIONS[i] in marks && marks[DIMENSIONS[i]] == 0.9
  {
    var entries := Nines();
    s := SheetOf(Forged(entries, "b"));
    var a := s.answers[0];
    assert s.answers[1] in s.answers && s.answers[1].id in Known(s);
    forall b | IsPrinted(s, b) && b != a ensures HeadingFree(b.text) {
      assert b.text == "";
    }
    marks := ForgedMarksRecorded(s, a, entries, "b");
  }
}
