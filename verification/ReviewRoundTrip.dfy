/** What the parser reads back from a printed sheet, whatever the answers on it say. */
module ReviewRoundTrip {
  import opened Prelude
  import opened SheetScan
  import opened SheetSections
  import opened SheetMarks
  import opened ReviewSheet

  // ---------------------------------------------------------------- the sheet as a document

  function QuestionLines(number: nat, total: nat, q: Question): seq<string>
    requires q.role != ""
  {
    [Title(number, total, q), "", AskedFor(q), "", "> " + q.text, "", "**A strong answer covers:**"]
      + (if q.points == [] then [""] else Bullets(q.points))
  }

  function AnswerChunks(group: seq<ReviewSheet.Answer>, k: nat, typed: Typed): seq<Chunk>
    requires |group| <= |LETTERS| && k <= |group| && ValidTyped(typed)
    decreases |group| - k
  {
    if k == |group| then []
    else
      [Plain([""]), Chunk.Answer(Printed(LETTERS[k], group[k].id, group[k].text, ScoreLine(typed, group[k].id)))]
        + AnswerChunks(group, k + 1, typed)
  }

  function QuestionChunks(s: Source, i: nat, typed: Typed): seq<Chunk>
    requires Shuffles(s) && Printable(s) && i < |s.questions| && ValidTyped(typed)
  {
    assert QuestionPrints(s, i);
    [Plain([""] + QuestionLines(i + 1, |s.questions|, s.questions[i]))]
      + AnswerChunks(Shuffled(s, i), 0, typed) + [Plain(["", "---"])]
  }

  function ChunksUpTo(s: Source, n: nat, typed: Typed): seq<Chunk>
    requires Shuffles(s) && Printable(s) && n <= |s.questions| && ValidTyped(typed)
  {
    if n == 0 then [] else ChunksUpTo(s, n - 1, typed) + QuestionChunks(s, n - 1, typed)
  }

  function SheetDoc(s: Source, typed: Typed): seq<Chunk>
    requires Shuffles(s) && Printable(s) && ValidTyped(typed)
  {
    [Plain(s.before + [DigestComment(s.digest)] + s.after)] + ChunksUpTo(s, |s.questions|, typed)
  }

  // ---------------------------------------------------------------- the text is the document's

  /** Each part on its own line after the last. */
  function Prefixed(parts: seq<string>): string {
    if parts == [] then "" else "\n" + parts[0] + Prefixed(parts[1..])
  }

  lemma {:induction false} JoinIsPrefixed(first: string, rest: seq<string>)
    ensures Join([first] + rest, "\n") == first + Prefixed(rest)
    decreases |rest|
  {
    if rest == [] {
      assert [first] + rest == [first];
    } else {
      assert ([first] + rest)[1..] == rest && rest == [rest[0]] + rest[1..];
      JoinIsPrefixed(rest[0], rest[1..]);
      assert first + "\n" + (rest[0] + Prefixed(rest[1..])) == first + ("\n" + rest[0] + Prefixed(rest[1..]));
    }
  }

  lemma {:induction false} PrefixedAppend(a: seq<string>, b: seq<string>)
    ensures Prefixed(a + b) == Prefixed(a) + Prefixed(b)
    decreases |a|
  {
    if a == [] {
      assert a + b == b;
    } else {
      assert (a + b)[0] == a[0] && (a + b)[1..] == a[1..] + b;
      PrefixedAppend(a[1..], b);
    }
  }

  lemma {:induction false} RenderAppend(a: seq<Chunk>, b: seq<Chunk>)
    ensures RenderAll(a + b) == RenderAll(a) + RenderAll(b)
    decreases |a|
  {
    if a == [] {
      assert a + b == b;
    } else {
      assert (a + b)[0] == a[0] && (a + b)[1..] == a[1..] + b;
      RenderAppend(a[1..], b);
    }
  }

  lemma UnlinesOne(line: string)
    ensures Unlines([line]) == line + "\n"
  {
    assert [line][1..] == [];
  }

  lemma AnswerBlockText(letter: char, a: ReviewSheet.Answer, scores: string)
    ensures AnswerBlock(letter, a, scores) == Render(Chunk.Answer(Printed(letter, a.id, a.text, scores)))
  {
    FenceText(scores, "");
    var fence := Unlines(Fence(scores));
    assert fence + "" == fence;
    assert "\n\n```" + ("\n" + scores + "\n```\n" + "") == "\n\n```\n" + scores + "\n```\n";
    BlockText("### " + [letter] + ". `" + a.id, a.text, scores);
  }

  lemma BlockText(heading: string, text: string, scores: string)
    ensures heading + "`\n\n" + text + "\n\n```\n" + scores + "\n```\n"
         == heading + "`" + "\n\n" + text + ("\n\n```\n" + scores + "\n```\n")
  {
    assert heading + "`\n\n" == heading + "`" + "\n\n";
    var front := heading + "`\n\n" + text;
    assert front + "\n\n```\n" + scores + "\n```\n" == front + ("\n\n```\n" + scores + "\n```\n");
  }

  lemma {:induction false} AnswersText(group: seq<ReviewSheet.Answer>, k: nat, typed: Typed)
    requires |group| <= |LETTERS| && k <= |group| && ValidTyped(typed)
    ensures Prefixed(AnswerParts(group, k, typed)) == RenderAll(AnswerChunks(group, k, typed))
    decreases |group| - k
  {
    if k < |group| {
      AnswersText(group, k + 1, typed);
      var scores := ScoreLine(typed, group[k].id);
      var block := AnswerBlock(LETTERS[k], group[k], scores);
      AnswerBlockText(LETTERS[k], group[k], scores);
      var answer := Chunk.Answer(Printed(LETTERS[k], group[k].id, group[k].text, scores));
      BlockAndRest(block, AnswerParts(group, k + 1, typed), answer, AnswerChunks(group, k + 1, typed));
    }
  }

  lemma BlockAndRest(block: string, parts: seq<string>, answer: Chunk, rest: seq<Chunk>)
    requires block == Render(answer) && Prefixed(parts) == RenderAll(rest)
    ensures Prefixed([block] + parts) == RenderAll([Plain([""]), answer] + rest)
  {
    assert ([block] + parts)[1..] == parts;
    UnlinesOne("");
    RenderTwo([""], answer, rest);
    Associative("\n", block, RenderAll(rest));
  }

  lemma RenderTwo(lines: seq<string>, answer: Chunk, rest: seq<Chunk>)
    ensures RenderAll([Plain(lines), answer] + rest) == Unlines(lines) + (Render(answer) + RenderAll(rest))
  {
    var doc := [Plain(lines), answer] + rest;
    assert doc[1..] == [answer] + rest && ([answer] + rest)[1..] == rest;
  }

  lemma {:induction false} JoinLines(lines: seq<string>)
    requires lines != []
    ensures Join(lines, "\n") + "\n" == Unlines(lines)
    decreases |lines|
  {
    if |lines| == 1 {
      assert lines == [lines[0]];
      UnlinesOne(lines[0]);
    } else {
      JoinLines(lines[1..]);
      assert lines[0] + "\n" + Join(lines[1..], "\n") + "\n" == lines[0] + "\n" + (Join(lines[1..], "\n") + "\n");
    }
  }

  lemma BulletsText(points: seq<string>)
    ensures Join(Bullets(points), "\n") + "\n" == Unlines(if points == [] then [""] else Bullets(points))
  {
    if points == [] {
      UnlinesOne("");
    } else {
      JoinLines(Bullets(points));
    }
  }

  lemma QuestionText(number: nat, total: nat, q: Question)
    requires q.role != ""
    ensures QuestionBlock(number, total, q) == Unlines(QuestionLines(number, total, q))
  {
    var t, a, x, h := Title(number, total, q), AskedFor(q), "> " + q.text, "**A strong answer covers:**";
    var bullets := if q.points == [] then [""] else Bullets(q.points);
    BulletsText(q.points);
    UnlinesAppend([t, "", a, "", x, "", h], bullets);
    SevenLines(t, a, x, h);
    RegroupBlock(t + "\n\n" + a + "\n\n" + x + "\n\n", h, Join(Bullets(q.points), "\n"));
  }

  lemma RegroupBlock(front: string, h: string, bullets: string)
    requires h == "**A strong answer covers:**"
    ensures front + "**A strong answer covers:**\n" + bullets + "\n" == front + h + "\n" + (bullets + "\n")
  {
    assert "**A strong answer covers:**\n" == h + "\n";
    assert front + (h + "\n") + bullets + "\n" == front + h + "\n" + (bullets + "\n");
  }

  lemma SevenLines(t: string, a: string, x: string, h: string)
    ensures Unlines([t, "", a, "", x, "", h]) == t + "\n\n" + a + "\n\n" + x + "\n\n" + h + "\n"
  {
    TwoLines(t, [a, "", x, "", h]);
    TwoLines(a, [x, "", h]);
    TwoLines(x, [h]);
    UnlinesOne(h);
    assert [t, "", a, "", x, "", h] == [t, ""] + [a, "", x, "", h];
    assert [a, "", x, "", h] == [a, ""] + [x, "", h];
    assert [x, "", h] == [x, ""] + [h];
  }

  lemma TwoLines(line: string, rest: seq<string>)
    ensures Unlines([line, ""] + rest) == line + "\n\n" + Unlines(rest)
  {
    UnlinesAppend([line, ""], rest);
    assert [line, ""][1..] == [""];
    UnlinesOne("");
    assert line + "\n" + "\n" == line + "\n\n";
  }

  lemma Sandwich(block: string, lines: seq<string>, parts: seq<string>, chunks: seq<Chunk>)
    requires block == Unlines(lines) && Prefixed(parts) == RenderAll(chunks)
    ensures Prefixed([block] + parts + ["---\n"]) == RenderAll([Plain([""] + lines)] + chunks + [Plain(["", "---"])])
  {
    BlockIsLines(block, lines);
    TextsAppend([block], parts, [Plain([""] + lines)], chunks);
    RuleIsLines();
    TextsAppend([block] + parts, ["---\n"], [Plain([""] + lines)] + chunks, [Plain(["", "---"])]);
  }

  lemma BlockIsLines(block: string, lines: seq<string>)
    requires block == Unlines(lines)
    ensures Prefixed([block]) == RenderAll([Plain([""] + lines)])
  {
    PrefixedOne(block);
    RenderOne([""] + lines);
    UnlinesAppend([""], lines);
    UnlinesOne("");
  }

  lemma RuleIsLines()
    ensures Prefixed(["---\n"]) == RenderAll([Plain(["", "---"])])
  {
    PrefixedOne("---\n");
    RenderOne(["", "---"]);
    RuleText();
  }

  lemma QuestionPartsText(s: Source, i: nat, typed: Typed)
    requires Shuffles(s) && Printable(s) && i < |s.questions| && ValidTyped(typed)
    ensures Prefixed(QuestionParts(s, i, typed)) == RenderAll(QuestionChunks(s, i, typed))
  {
    var q := s.questions[i];
    assert QuestionPrints(s, i);
    QuestionText(i + 1, |s.questions|, q);
    AnswersText(Shuffled(s, i), 0, typed);
    Sandwich(QuestionBlock(i + 1, |s.questions|, q), QuestionLines(i + 1, |s.questions|, q),
             AnswerParts(Shuffled(s, i), 0, typed), AnswerChunks(Shuffled(s, i), 0, typed));
  }

  lemma RuleText()
    ensures Unlines(["", "---"]) == "\n" + "---\n"
  {
    assert ["", "---"][1..] == ["---"];
    UnlinesOne("---");
  }

  lemma PrefixedOne(part: string)
    ensures Prefixed([part]) == "\n" + part
  {
    assert [part][1..] == [];
  }

  lemma RenderOne(lines: seq<string>)
    ensures RenderAll([Plain(lines)]) == Unlines(lines)
  {
    assert [Plain(lines)][1..] == [];
  }

  lemma {:induction false} PartsText(s: Source, n: nat, typed: Typed)
    requires Shuffles(s) && Printable(s) && n <= |s.questions| && ValidTyped(typed)
    ensures Prefixed(PartsUpTo(s, n, typed)) == RenderAll(ChunksUpTo(s, n, typed))
  {
    if n > 0 {
      PartsText(s, n - 1, typed);
      QuestionPartsText(s, n - 1, typed);
      TextsAppend(PartsUpTo(s, n - 1, typed), QuestionParts(s, n - 1, typed),
                  ChunksUpTo(s, n - 1, typed), QuestionChunks(s, n - 1, typed));
    }
  }

  lemma TextsAppend(parts: seq<string>, more: seq<string>, chunks: seq<Chunk>, moreChunks: seq<Chunk>)
    requires Prefixed(parts) == RenderAll(chunks) && Prefixed(more) == RenderAll(moreChunks)
    ensures Prefixed(parts + more) == RenderAll(chunks + moreChunks)
  {
    PrefixedAppend(parts, more);
    RenderAppend(chunks, moreChunks);
  }

  lemma HeaderText(s: Source)
    ensures Header(s) == Unlines(s.before + [DigestComment(s.digest)] + s.after)
  {
    UnlinesAppend(s.before + [DigestComment(s.digest)], s.after);
    UnlinesAppend(s.before, [DigestComment(s.digest)]);
    UnlinesOne(DigestComment(s.digest));
    assert Unlines(s.before) + (DigestComment(s.digest) + "\n") == Unlines(s.before) + DigestComment(s.digest) + "\n";
  }

  lemma SheetIsDocument(s: Source, typed: Typed)
    requires Shuffles(s) && Printable(s) && ValidTyped(typed)
    ensures SheetText(s, typed) == RenderAll(SheetDoc(s, typed))
  {
    var lines := s.before + [DigestComment(s.digest)] + s.after;
    var chunks := ChunksUpTo(s, |s.questions|, typed);
    JoinIsPrefixed(Header(s), PartsUpTo(s, |s.questions|, typed));
    PartsText(s, |s.questions|, typed);
    HeaderText(s);
    assert ([Plain(lines)] + chunks)[1..] == chunks;
  }

  // ---------------------------------------------------------------- what the source must be

  /** Header lines are not headings and hold no `<` before the digest; the digest is one; what
      a question says is on single lines; ids are what the heading pattern expects. */
  ghost predicate Clean(s: Source) {
    && IsDigest(s.digest)
    && (forall i | 0 <= i < |s.before| :: PlainLine(s.before[i]) && '<' !in s.before[i])
    && (forall i | 0 <= i < |s.after| :: PlainLine(s.after[i]))
    && (forall i | 0 <= i < |s.questions| :: SingleLines(s.questions[i]))
    && (forall i | 0 <= i < |s.answers| :: IsId(s.answers[i].id))
  }

  ghost predicate SingleLines(q: Question) {
    && OneLine(q.role) && OneLine(q.topic) && OneLine(q.difficulty) && OneLine(q.text)
    && (forall i | 0 <= i < |q.points| :: OneLine(q.points[i]))
  }

  /** A line that starts a heading nowhere and cannot be taken for a SCORES line. */
  ghost predicate Harmless(line: string) {
    PlainLine(line) && Quiet(line)
  }

  ghost predicate AllHarmless(lines: seq<string>) {
    forall i | 0 <= i < |lines| :: Harmless(lines[i])
  }

  lemma HarmlessAppend(a: seq<string>, b: seq<string>)
    requires AllHarmless(a) && AllHarmless(b)
    ensures AllHarmless(a + b)
  {
  }

  lemma StartsQuietly(line: string)
    requires OneLine(line) && (line == "" || (line[0] != 'S' && line[0] != '#' && !IsSpace(line[0])))
    ensures Harmless(line)
  {
    SkipNothing(line);
    assert "###"[0] == '#';
    NoNewline(line);
  }

  lemma NoNewline(line: string)
    requires OneLine(line)
    ensures '\n' !in line
  {
  }

  lemma BulletHarmless(point: string)
    requires OneLine(point)
    ensures Harmless("  - " + point)
  {
    var line := "  - " + point;
    SkipSpaceStep(line);
    SkipSpaceStep(line[1..]);
    assert line[1..][1..] == "- " + point;
    SkipNothing("- " + point);
    assert OneLine(line);
    NoNewline(line);
    assert line[0] == ' ' && "###"[0] == '#';
  }

  lemma {:induction false} DecimalOneLine(n: nat)
    ensures OneLine(Decimal(n))
    decreases n
  {
    if n >= 10 {
      DecimalOneLine(n / 10);
    }
    DigitChar(n % 10);
  }

  lemma DigitChar(d: nat)
    requires d < 10
    ensures !IsBreak(d as char + '0')
  {
  }

  lemma OneLineAppend(a: string, b: string)
    requires OneLine(a) && OneLine(b)
    ensures OneLine(a + b)
  {
  }

  lemma TitleHarmless(number: nat, total: nat, q: Question)
    requires SingleLines(q)
    ensures Harmless(Title(number, total, q))
  {
    DecimalOneLine(number);
    DecimalOneLine(total);
    OneLineAppend("## Question ", Decimal(number));
    OneLineAppend("## Question " + Decimal(number), " of ");
    OneLineAppend("## Question " + Decimal(number) + " of ", Decimal(total));
    var front := "## Question " + Decimal(number) + " of " + Decimal(total);
    OneLineAppend(front, " -- ");
    OneLineAppend(front + " -- ", q.topic);
    OneLineAppend(front + " -- " + q.topic, " (");
    OneLineAppend(front + " -- " + q.topic + " (", q.difficulty);
    OneLineAppend(front + " -- " + q.topic + " (" + q.difficulty, ")");
    var title := Title(number, total, q);
    assert title[0] == '#' && title[2] == ' ' && "###"[2] == '#';
    SkipNothing(title);
    NoNewline(title);
  }

  lemma AskedForHarmless(q: Question)
    requires SingleLines(q) && q.role != ""
    ensures Harmless(AskedFor(q))
  {
    OneLineAppend("*Asked for ", Article(q.role));
    OneLineAppend("*Asked for " + Article(q.role), " ");
    OneLineAppend("*Asked for " + Article(q.role) + " ", q.role);
    OneLineAppend("*Asked for " + Article(q.role) + " " + q.role, " role.*");
    assert AskedFor(q)[0] == '*';
    StartsQuietly(AskedFor(q));
  }

  lemma QuestionLinesHarmless(number: nat, total: nat, q: Question)
    requires SingleLines(q) && q.role != ""
    ensures AllHarmless(QuestionLines(number, total, q))
  {
    TitleHarmless(number, total, q);
    AskedForHarmless(q);
    TextHarmless(q.text);
    PointsHarmless(q.points);
    SevenHarmless(Title(number, total, q), AskedFor(q), "> " + q.text, if q.points == [] then [""] else Bullets(q.points));
  }

  lemma TextHarmless(text: string)
    requires OneLine(text)
    ensures Harmless("> " + text)
  {
    OneLineAppend("> ", text);
    StartsQuietly("> " + text);
  }

  lemma SevenHarmless(t: string, a: string, x: string, bullets: seq<string>)
    requires Harmless(t) && Harmless(a) && Harmless(x) && AllHarmless(bullets)
    ensures AllHarmless([t, "", a, "", x, "", "**A strong answer covers:**"] + bullets)
  {
    StartsQuietly("");
    StartsQuietly("**A strong answer covers:**");
    assert AllHarmless([t, "", a, "", x, "", "**A strong answer covers:**"]);
    HarmlessAppend([t, "", a, "", x, "", "**A strong answer covers:**"], bullets);
  }

  lemma PointsHarmless(points: seq<string>)
    requires forall i | 0 <= i < |points| :: OneLine(points[i])
    ensures AllHarmless(if points == [] then [""] else Bullets(points))
  {
    StartsQuietly("");
    BulletsHarmless(points);
  }

  lemma BulletsHarmless(points: seq<string>)
    requires forall i | 0 <= i < |points| :: OneLine(points[i])
    ensures AllHarmless(Bullets(points))
  {
    forall i | 0 <= i < |points| ensures Harmless(Bullets(points)[i]) {
      BulletHarmless(points[i]);
    }
  }

  // ---------------------------------------------------------------- the score lines

  lemma {:induction false} FieldsOneLine(names: seq<string>, entries: seq<string>)
    requires |names| == |entries|
    requires forall i | 0 <= i < |names| :: IsName(names[i]) && IsTyped(entries[i])
    ensures OneLine(Fields(names, entries))
    decreases |names|
  {
    if names != [] {
      var rest := Fields(names[1..], entries[1..]);
      FieldsOneLine(names[1..], entries[1..]);
      OneLineAppend("  ", names[0]);
      OneLineAppend("  " + names[0], "=");
      OneLineAppend("  " + names[0] + "=", entries[0]);
      OneLineAppend("  " + names[0] + "=" + entries[0], rest);
    }
  }

  lemma DimensionsAreNames()
    ensures forall i | 0 <= i < |DIMENSIONS| :: IsName(DIMENSIONS[i])
    ensures forall i, j | 0 <= i < j < |DIMENSIONS| :: DIMENSIONS[i] != DIMENSIONS[j]
  {
    assert DIMENSIONS[0][0] == 't' && DIMENSIONS[1][0] == 'r' && DIMENSIONS[4][0] == 's';
    assert DIMENSIONS[2][3] == 'p' && DIMENSIONS[3][3] == 'm';
    assert DIMENSIONS[2][0] == 'c' && DIMENSIONS[3][0] == 'c';
  }

  lemma ScoreLineClean(typed: Typed, id: string)
    requires ValidTyped(typed)
    ensures var line := ScoreLine(typed, id); OneLine(line) && PlainLine(line) && "SCORES" <= line
  {
    var line := ScoreLine(typed, id);
    DimensionsAreNames();
    FieldsOneLine(DIMENSIONS, EntriesFor(typed, id));
    OneLineAppend("SCORES", Fields(DIMENSIONS, EntriesFor(typed, id)));
    NoNewline(line);
    assert line[0] == 'S' && "###"[0] == '#';
    assert line[..6] == "SCORES";
  }
}
