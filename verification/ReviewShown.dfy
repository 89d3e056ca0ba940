/** What a marker sees: the words on the sheet, and the order the answers stand in. */
module ReviewShown {
  import opened Prelude
  import opened SheetScan
  import opened SheetMarks
  import opened ReviewSheet
  import opened ReviewParser
  import opened ReviewRoundTrip
  import opened ReviewVerdicts

  // ---------------------------------------------------------------- the words

  /** The rubric: one dashed line a point. */
  function Points(points: seq<string>): string {
    if points == [] then ""
    else "  - " + points[0] + (if |points| == 1 then "" else "\n" + Points(points[1..]))
  }

  /** What the marker reads of a question. */
  function Asked(number: nat, total: nat, q: Question): string
    requires q.role != ""
  {
    var title := "## Question " + Decimal(number) + " of " + Decimal(total) + " -- " + q.topic + " (" + q.difficulty + ")";
    var vowel := q.role[0] == 'A' || q.role[0] == 'E' || q.role[0] == 'I' || q.role[0] == 'O' || q.role[0] == 'U';
    title + "\n\n"
      + ("*Asked for " + (if vowel then "an" else "a") + " " + q.role + " role.*") + "\n\n"
      + "> " + q.text + "\n\n"
      + "**A strong answer covers:**\n" + Points(q.points) + "\n"
  }

  /** What the marker reads of an answer: never its profile. */
  function Answered(letter: char, id: string, text: string, line: string): string {
    "### " + [letter] + ". `" + id + "`\n\n" + text + "\n\n```\n" + line + "\n```\n"
  }

  lemma {:induction false} PointsAreJoined(points: seq<string>)
    ensures Points(points) == Join(Bullets(points), "\n")
    decreases |points|
  {
    if points != [] {
      PointsAreJoined(points[1..]);
      assert Bullets(points)[1..] == Bullets(points[1..]);
      Associative("  - " + points[0], "\n", Points(points[1..]));
    }
  }

  lemma AskedIsBlock(number: nat, total: nat, q: Question)
    requires q.role != ""
    ensures Asked(number, total, q) == QuestionBlock(number, total, q)
  {
    PointsAreJoined(q.points);
    QuotedText(Title(number, total, q) + "\n\n" + AskedFor(q) + "\n\n", q.text,
               "\n\n", "**A strong answer covers:**\n", Join(Bullets(q.points), "\n"), "\n");
  }

  lemma QuotedText(a: string, text: string, b: string, c: string, d: string, e: string)
    ensures a + "> " + text + b + c + d + e == a + ("> " + text) + b + c + d + e
  {
    Associative(a, "> ", text);
  }

  // ---------------------------------------------------------------- the sheet

  lemma {:induction false} PartsGrow(s: Source, i: nat, n: nat, typed: Typed) returns (later: seq<string>)
    requires Shuffles(s) && Printable(s) && i <= n <= |s.questions| && ValidTyped(typed)
    ensures PartsUpTo(s, n, typed) == PartsUpTo(s, i, typed) + later
    decreases n
  {
    if i == n {
      later := NoMore(PartsUpTo(s, n, typed));
    } else {
      var rest := PartsGrow(s, i, n - 1, typed);
      later := OneMore(PartsUpTo(s, i, typed), rest, QuestionParts(s, n - 1, typed));
    }
  }

  lemma NoMore(parts: seq<string>) returns (later: seq<string>)
    ensures parts == parts + later
  {
    later := [];
  }

  lemma OneMore(some: seq<string>, rest: seq<string>, more: seq<string>) returns (later: seq<string>)
    ensures some + rest + more == some + later
  {
    later := rest + more;
  }

  lemma NextAnswer(group: seq<ReviewSheet.Answer>, k: nat, typed: Typed)
    requires |group| <= |LETTERS| && k < |group| && ValidTyped(typed)
    ensures Prefixed(AnswerParts(group, k, typed))
         == "\n" + Answered(LETTERS[k], group[k].id, group[k].text, ScoreLine(typed, group[k].id))
            + Prefixed(AnswerParts(group, k + 1, typed))
  {
    var parts := AnswerParts(group, k, typed);
    assert parts[1..] == AnswerParts(group, k + 1, typed);
  }

  /** The five answers of a group, lettered A to E in the order given. */
  function FiveAnswered(group: seq<ReviewSheet.Answer>, typed: Typed): string
    requires |group| == 5 && ValidTyped(typed)
  {
    "\n" + Answered('A', group[0].id, group[0].text, ScoreLine(typed, group[0].id))
      + ("\n" + Answered('B', group[1].id, group[1].text, ScoreLine(typed, group[1].id))
      + ("\n" + Answered('C', group[2].id, group[2].text, ScoreLine(typed, group[2].id))
      + ("\n" + Answered('D', group[3].id, group[3].text, ScoreLine(typed, group[3].id))
      + ("\n" + Answered('E', group[4].id, group[4].text, ScoreLine(typed, group[4].id))))))
  }

  lemma FiveAreParts(group: seq<ReviewSheet.Answer>, typed: Typed)
    requires |group| == 5 && ValidTyped(typed)
    ensures Prefixed(AnswerParts(group, 0, typed)) == FiveAnswered(group, typed)
  {
    NextAnswer(group, 4, typed);
    NextAnswer(group, 3, typed);
    NextAnswer(group, 2, typed);
    NextAnswer(group, 1, typed);
    NextAnswer(group, 0, typed);
    assert Prefixed(AnswerParts(group, 5, typed)) == "";
    var last := "\n" + Answered('E', group[4].id, group[4].text, ScoreLine(typed, group[4].id));
    assert last + "" == last;
  }

  lemma QuestionPartsShown(s: Source, i: nat, typed: Typed)
    requires Shuffles(s) && Printable(s) && i < |s.questions| && ValidTyped(typed)
    ensures s.questions[i].role != "" && |Shuffled(s, i)| == 5
    ensures Prefixed(QuestionParts(s, i, typed))
         == "\n" + Asked(i + 1, |s.questions|, s.questions[i]) + FiveAnswered(Shuffled(s, i), typed) + "\n---\n"
  {
    assert QuestionPrints(s, i);
    var group, q := Shuffled(s, i), s.questions[i];
    AskedIsBlock(i + 1, |s.questions|, q);
    FiveAreParts(group, typed);
    BlockShown(QuestionBlock(i + 1, |s.questions|, q), AnswerParts(group, 0, typed), FiveAnswered(group, typed));
  }

  lemma BlockShown(block: string, answers: seq<string>, shown: string)
    requires Prefixed(answers) == shown
    ensures Prefixed([block] + answers + ["---\n"]) == "\n" + block + shown + "\n---\n"
  {
    PrefixedAppend([block] + answers, ["---\n"]);
    PrefixedAppend([block], answers);
    PrefixedOne(block);
    PrefixedOne("---\n");
  }

  /** On the sheet each question stands with its own words, numbered in order, and below it its
      five answers, lettered A to E in the shuffled order, each with its own id, text and line. */
  lemma QuestionShown(s: Source, i: nat, typed: Typed) returns (before: string, after: string)
    requires Shuffles(s) && Printable(s) && i < |s.questions| && ValidTyped(typed)
    ensures s.questions[i].role != "" && |Shuffled(s, i)| == 5
    ensures SheetText(s, typed)
         == before + ("\n" + Asked(i + 1, |s.questions|, s.questions[i]) + FiveAnswered(Shuffled(s, i), typed) + "\n---\n") + after
  {
    var n := |s.questions|;
    QuestionPartsShown(s, i, typed);
    JoinIsPrefixed(Header(s), PartsUpTo(s, n, typed));
    var later := PartsGrow(s, i + 1, n, typed);
    before, after := Surrounded(Header(s), PartsUpTo(s, i, typed), QuestionParts(s, i, typed), later);
  }

  lemma Surrounded(header: string, earlier: seq<string>, mine: seq<string>, later: seq<string>)
    returns (before: string, after: string)
    ensures header + Prefixed(earlier + mine + later) == before + Prefixed(mine) + after
  {
    PrefixedAppend(earlier + mine, later);
    PrefixedAppend(earlier, mine);
    before, after := header + Prefixed(earlier), Prefixed(later);
    Sandwiched(header, Prefixed(earlier), Prefixed(mine), after);
  }

  lemma Sandwiched(a: string, b: string, c: string, d: string)
    ensures a + (b + c + d) == a + b + c + d
  {
  }

  /** The line under every answer of a fresh sheet. */
  lemma BlankLine(id: string)
    ensures ScoreLine(map[], id)
         == "SCORES" + ("  technical=_" + ("  relevance=_" + ("  completeness=_" + ("  communication=_" + "  structure=_"))))
  {
    var blanks := ["_", "_", "_", "_", "_"];
    assert Blanks() == blanks;
    BlankField("structure", [], []);
    BlankField("communication", ["structure"], ["_"]);
    BlankField("completeness", ["communication", "structure"], ["_", "_"]);
    BlankField("relevance", ["completeness", "communication", "structure"], ["_", "_", "_"]);
    BlankField("technical", ["relevance", "completeness", "communication", "structure"], ["_", "_", "_", "_"]);
    FieldTexts();
    assert [] + ["structure"] == ["structure"];
    assert ["communication"] + ["structure"] == ["communication", "structure"];
    assert ["completeness"] + ["communication", "structure"] == ["completeness", "communication", "structure"];
    assert ["relevance"] + ["completeness", "communication", "structure"] == ["relevance", "completeness", "communication", "structure"];
    assert ["technical"] + ["relevance", "completeness", "communication", "structure"] == DIMENSIONS;
  }

  lemma BlankField(name: string, names: seq<string>, entries: seq<string>)
    requires |names| == |entries|
    ensures Fields([name] + names, ["_"] + entries) == "  " + name + "=" + "_" + Fields(names, entries)
  {
    assert ([name] + names)[1..] == names && (["_"] + entries)[1..] == entries;
  }

  lemma FieldTexts()
    ensures "  " + "technical" + "=" + "_" == "  technical=_"
    ensures "  " + "relevance" + "=" + "_" == "  relevance=_"
    ensures "  " + "completeness" + "=" + "_" == "  completeness=_"
    ensures "  " + "communication" + "=" + "_" == "  communication=_"
    ensures "  " + "structure" + "=" + "_" + "" == "  structure=_"
  {
  }

  /** A printed number is the numeral of that number, without leading zeros. */
  lemma {:induction false} DecimalExactly(n: nat)
    ensures Digits(Decimal(n)) && Value(Decimal(n)) == n
    ensures n > 0 ==> Decimal(n)[0] != '0'
    decreases n
  {
    if n >= 10 {
      DecimalExactly(n / 10);
    }
    OneDigit(n % 10);
    var last := [(n % 10) as char + '0'];
    var front := if n < 10 then "" else Decimal(n / 10);
    assert Decimal(n) == front + last && (front + last)[..|front|] == front;
  }

  lemma OneDigit(d: nat)
    requires d < 10
    ensures IsDigit(d as char + '0') && DigitValue(d as char + '0') == d && (d > 0 ==> d as char + '0' != '0')
  {
  }

  // ---------------------------------------------------------------- the order of the answers

  /** The places, in order, of the answers to a question. */
  ghost predicate PlacesOf(places: seq<nat>, answers: seq<ReviewSheet.Answer>, questionId: string) {
    && (forall i, j | 0 <= i < j < |places| :: places[i] < places[j])
    && (forall i | 0 <= i < |places| :: places[i] < |answers| && answers[places[i]].questionId == questionId)
    && (forall p | 0 <= p < |answers| && answers[p].questionId == questionId :: p in places)
  }

  lemma PlacesNext(places: seq<nat>, answers: seq<ReviewSheet.Answer>, questionId: string)
    requires answers != [] && PlacesOf(places, answers[..|answers| - 1], questionId)
    ensures var n := |answers| - 1;
            PlacesOf(if answers[n].questionId == questionId then places + [n] else places, answers, questionId)
  {
    var n := |answers| - 1;
    var init := answers[..n];
    var longer := if answers[n].questionId == questionId then places + [n] else places;
    assert forall i | 0 <= i < |places| :: places[i] < n && answers[places[i]] == init[places[i]];
    forall p | 0 <= p < |answers| && answers[p].questionId == questionId ensures p in longer {
      if p < n {
        assert init[p] == answers[p];
        assert p in places;
      }
    }
  }

  ghost predicate TakenFrom(group: seq<ReviewSheet.Answer>, answers: seq<ReviewSheet.Answer>, places: seq<nat>) {
    |places| == |group| && forall i | 0 <= i < |places| :: places[i] < |answers| && group[i] == answers[places[i]]
  }

  lemma TakenNext(group: seq<ReviewSheet.Answer>, answers: seq<ReviewSheet.Answer>, places: seq<nat>)
    requires answers != [] && TakenFrom(group, answers[..|answers| - 1], places)
    ensures TakenFrom(group, answers, places)
    ensures TakenFrom(group + [answers[|answers| - 1]], answers, places + [|answers| - 1])
  {
    var init := answers[..|answers| - 1];
    assert forall p | 0 <= p < |init| :: init[p] == answers[p];
  }

  lemma {:induction false} GroupKeepsOrder(answers: seq<ReviewSheet.Answer>, questionId: string) returns (places: seq<nat>)
    ensures PlacesOf(places, answers, questionId) && TakenFrom(Group(answers, questionId), answers, places)
    decreases |answers|
  {
    places := [];
    if answers != [] {
      var n := |answers| - 1;
      var before := GroupKeepsOrder(answers[..n], questionId);
      PlacesNext(before, answers, questionId);
      TakenNext(Group(answers[..n], questionId), answers, before);
      places := if answers[n].questionId == questionId then before + [n] else before;
    }
  }

  /** The answer under each letter is the one the shuffle takes there, out of the question's
      answers in the order they were given. */
  lemma LetterExactly(s: Source, i: nat) returns (places: seq<nat>)
    requires Shuffles(s) && i < |s.questions|
    ensures PlacesOf(places, s.answers, s.questions[i].id) && |Shuffled(s, i)| == |places|
    ensures forall k | 0 <= k < |places| ::
              var from := s.shuffle(i, |places|);
              k < |from| && from[k] < |places| && Shuffled(s, i)[k] == s.answers[places[from[k]]]
  {
    places := GroupKeepsOrder(s.answers, s.questions[i].id);
    assert Permutes(s.shuffle, i, |places|);
  }
}
