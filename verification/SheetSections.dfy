/** What splitting a sheet into sections finds, piece by piece. */
module SheetSections {
  import opened Prelude
  import opened SheetScan

  // ---------------------------------------------------------------- text no match can enter

  /** A match under way dies in `v`, whatever it has read so far. */
  ghost predicate Dead(v: string) {
    forall q: State, id: string :: Scan(q, v, id).None?
  }

  /** Followed by such text, a match ends where it would have ended alone, or not at all. */
  lemma {:induction false} ScanAppend(q: State, u: string, v: string, id: string)
    requires Dead(v)
    ensures Scan(q, u + v, id) ==
            match Scan(q, u, id) case None => None case Some(h) => Some(Heading(h.id, h.rest + v))
    decreases |u|
  {
    if u == "" {
      assert u + v == v;
    } else {
      assert (u + v)[0] == u[0] && (u + v)[1..] == u[1..] + v;
      forall q': State, id': string
        ensures Scan(q', u[1..] + v, id') ==
                match Scan(q', u[1..], id') case None => None case Some(h) => Some(Heading(h.id, h.rest + v))
      {
        ScanAppend(q', u[1..], v, id');
      }
    }
  }

  /** The line after an answer is blank and the next one opens a fence. */
  lemma FenceIsDead(v: string)
    ensures Dead("\n\n```" + v)
  {
    var s := "\n\n```" + v;
    var s1 := "\n```" + v;
    var s2 := "```" + v;
    var s3 := "``" + v;
    assert s[0] == '\n' && s[1..] == s1 && s1[0] == '\n' && s1[1..] == s2 && s2[0] == '`' && s2[1..] == s3 && s3[0] == '`';
    forall q: State, id: string ensures Scan(q, s, id).None? {
      assert Scan(Gap1More, s2, id).None? && Scan(Name, s3, id).None?;
      assert Scan(Gap2More, s2, id) == Scan(Name, s3, id);
      assert Scan(Gap1More, s1, id) == Scan(Gap1More, s2, id);
      assert Scan(Gap2More, s1, id) == Scan(Gap2More, s2, id);
    }
  }

  // ---------------------------------------------------------------- gluing

  /** The split of two texts one after the other: the second's preamble belongs to the last
      section of the first. */
  function Glue(p: Parsed, r: Parsed): Parsed {
    if p.sections == [] then Parsed(p.preamble + r.preamble, r.sections)
    else
      var last := p.sections[|p.sections| - 1];
      Parsed(p.preamble, p.sections[..|p.sections| - 1] + [Section(last.id, last.body + r.preamble)] + r.sections)
  }

  lemma GlueSection(id: string, p: Parsed, r: Parsed)
    ensures var g := Glue(p, r);
            Glue(Parsed("", [Section(id, p.preamble)] + p.sections), r) ==
            Parsed("", [Section(id, g.preamble)] + g.sections)
  {
    var whole := [Section(id, p.preamble)] + p.sections;
    var n := |p.sections|;
    if n == 0 {
      assert whole == [Section(id, p.preamble)];
      assert whole[..0] + [Section(id, p.preamble + r.preamble)] + r.sections
          == [Section(id, p.preamble + r.preamble)] + r.sections;
    } else {
      assert whole[n] == p.sections[n - 1];
      assert whole[..n] == [Section(id, p.preamble)] + p.sections[..n - 1];
    }
  }

  lemma GlueChar(c: char, p: Parsed, r: Parsed)
    ensures Glue(Parsed([c] + p.preamble, p.sections), r)
         == Parsed([c] + Glue(p, r).preamble, Glue(p, r).sections)
  {
    assert [c] + p.preamble + r.preamble == [c] + (p.preamble + r.preamble);
  }

  /** Whatever the first text contains, headings included, splitting it in context is splitting
      it alone. */
  lemma {:induction false} SplitAppend(u: string, v: string, lineStart: bool)
    requires Dead(v)
    ensures Split(u + v, lineStart) == Glue(Split(u, lineStart), Split(v, true))
    decreases |u|
  {
    if u == "" {
      assert u + v == v;
      assert MatchHeading(v).None?;
    } else {
      ScanAppend(Hash(0), u, v, "");
      assert (u + v)[0] == u[0] && (u + v)[1..] == u[1..] + v;
      if lineStart && MatchHeading(u).Some? {
        var h := MatchHeading(u).value;
        SplitAppend(h.rest, v, false);
        GlueSection(h.id, Split(h.rest, false), Split(v, true));
      } else {
        SplitAppend(u[1..], v, u[0] == '\n');
        GlueChar(u[0], Split(u[1..], u[0] == '\n'), Split(v, true));
      }
    }
  }

  // ---------------------------------------------------------------- plain lines

  predicate PlainLine(line: string) {
    '\n' !in line && !("###" <= line)
  }

  function Unlines(lines: seq<string>): string {
    if lines == [] then "" else lines[0] + "\n" + Unlines(lines[1..])
  }

  lemma NeedsHashes(s: string)
    ensures MatchHeading(s).Some? ==> |s| >= 3 && s[0] == s[1] == s[2] == '#'
  {
    if |s| > 0 && s[0] == '#' {
      var s1 := s[1..];
      assert Scan(Hash(0), s, "") == Scan(Hash(1), s1, "");
      if |s1| > 0 && s1[0] == '#' {
        var s2 := s1[1..];
        assert Scan(Hash(1), s1, "") == Scan(Hash(2), s2, "");
        assert |s2| > 0 ==> s2[0] == s[2];
      }
    }
  }

  lemma LineNoHeading(line: string, v: string)
    requires PlainLine(line)
    ensures MatchHeading(line + "\n" + v).None?
  {
    var s := line + "\n" + v;
    NeedsHashes(s);
    if |line| >= 3 {
      assert s[0] == line[0] && s[1] == line[1] && s[2] == line[2];
      assert line[..3] == [line[0], line[1], line[2]];
    } else {
      assert s[|line|] == '\n';
    }
  }

  lemma {:induction false} SplitInside(line: string, v: string)
    requires '\n' !in line
    ensures Split(line + "\n" + v, false) ==
            Parsed(line + "\n" + Split(v, true).preamble, Split(v, true).sections)
    decreases |line|
  {
    var s := line + "\n" + v;
    if line == "" {
      assert s == ['\n'] + v && s[1..] == v;
      assert line + "\n" + Split(v, true).preamble == ['\n'] + Split(v, true).preamble;
    } else {
      assert s[0] == line[0] && s[1..] == line[1..] + "\n" + v;
      SplitInside(line[1..], v);
      assert line + "\n" + Split(v, true).preamble == [line[0]] + (line[1..] + "\n" + Split(v, true).preamble);
    }
  }

  lemma SplitPlainLine(line: string, v: string)
    requires PlainLine(line)
    ensures Split(line + "\n" + v, true) ==
            Parsed(line + "\n" + Split(v, true).preamble, Split(v, true).sections)
  {
    LineNoHeading(line, v);
    SplitInside(line, v);
  }

  lemma {:induction false} SplitPlain(lines: seq<string>, v: string)
    requires forall i | 0 <= i < |lines| :: PlainLine(lines[i])
    ensures Split(Unlines(lines) + v, true) ==
            Parsed(Unlines(lines) + Split(v, true).preamble, Split(v, true).sections)
    decreases |lines|
  {
    if lines == [] {
      assert Unlines(lines) + v == v;
      assert Unlines(lines) + Split(v, true).preamble == Split(v, true).preamble;
    } else {
      var rest := Unlines(lines[1..]);
      SplitPlain(lines[1..], v);
      assert Unlines(lines) + v == lines[0] + "\n" + (rest + v);
      SplitPlainLine(lines[0], rest + v);
      assert Unlines(lines) + Split(v, true).preamble == lines[0] + "\n" + (rest + Split(v, true).preamble);
    }
  }

  // ---------------------------------------------------------------- headings

  function HeadingLine(letter: char, id: string): string {
    "### " + [letter] + ". `" + id + "`"
  }

  predicate IsId(id: string) {
    id != "" && forall i | 0 <= i < |id| :: IsIdChar(id[i])
  }

  lemma {:induction false} ScanName(read: string, id: string, v: string)
    requires forall i | 0 <= i < |id| :: IsIdChar(id[i])
    ensures Scan(NameMore, id + "`" + v, read) == Some(Heading(read + id, v))
    decreases |id|
  {
    var s := id + "`" + v;
    if id == "" {
      assert s[0] == '`' && s[1..] == v && read + id == read;
    } else {
      assert s[0] == id[0] && s[1..] == id[1..] + "`" + v;
      ScanName(read + [id[0]], id[1..], v);
      assert read + [id[0]] + id[1..] == read + id;
    }
  }

  lemma ScanWholeName(id: string, v: string)
    requires IsId(id)
    ensures Scan(Name, id + "`" + v, "") == Some(Heading(id, v))
  {
    var name := id + "`" + v;
    ScanName([id[0]], id[1..], v);
    assert name[0] == id[0] && name[1..] == id[1..] + "`" + v;
    assert [id[0]] + id[1..] == id && "" + [id[0]] == [id[0]];
  }

  lemma ScanTick(name: string)
    ensures Scan(Point, ['.', ' ', '`'] + name, "") == Scan(Name, name, "")
  {
    var s, s1, s2 := ['.', ' ', '`'] + name, [' ', '`'] + name, ['`'] + name;
    assert s[1..] == s1 && s1[1..] == s2 && s2[1..] == name;
    assert Scan(Gap2, s1, "") == Scan(Gap2More, s2, "");
  }

  lemma ScanPoint(id: string, v: string)
    requires IsId(id)
    ensures Scan(Point, ". `" + id + "`" + v, "") == Some(Heading(id, v))
  {
    ScanWholeName(id, v);
    ScanTick(id + "`" + v);
    assert ". `" + id + "`" + v == ['.', ' ', '`'] + (id + "`" + v);
  }

  lemma ScanHashes(t: string)
    ensures Scan(Hash(0), ['#', '#', '#'] + t, "") == Scan(Gap1, t, "")
  {
    var s := ['#', '#', '#'] + t;
    var s1, s2 := ['#', '#'] + t, ['#'] + t;
    assert s[1..] == s1 && s1[1..] == s2 && s2[1..] == t;
    assert Scan(Hash(1), s1, "") == Scan(Hash(2), s2, "");
  }

  lemma ScanLetter(letter: char, t: string)
    requires 'A' <= letter <= 'E'
    ensures Scan(Gap1, [' ', letter] + t, "") == Scan(Point, t, "")
  {
    var s := [' ', letter] + t;
    assert s[1..] == [letter] + t && ([letter] + t)[1..] == t;
    assert Scan(Gap1More, [letter] + t, "") == Scan(Point, t, "");
  }

  lemma HeadingMatches(letter: char, id: string, v: string)
    requires 'A' <= letter <= 'E' && IsId(id)
    ensures MatchHeading(HeadingLine(letter, id) + v) == Some(Heading(id, v))
  {
    var point := ". `" + id + "`" + v;
    ScanPoint(id, v);
    ScanLetter(letter, point);
    ScanHashes([' ', letter] + point);
    assert HeadingLine(letter, id) + v == ['#', '#', '#'] + ([' ', letter] + point);
  }

  // ---------------------------------------------------------------- documents

  /** An answer as printed: its heading, its text, and the line its marks go on. */
  datatype Printed = Printed(letter: char, id: string, text: string, scores: string)

  datatype Chunk = Plain(lines: seq<string>) | Answer(printed: Printed)

  predicate WellFormed(chunk: Chunk) {
    match chunk
    case Plain(lines) => forall i | 0 <= i < |lines| :: PlainLine(lines[i])
    case Answer(p) => 'A' <= p.letter <= 'E' && IsId(p.id) && PlainLine(p.scores)
  }

  function Fence(scores: string): seq<string> {
    ["", "", "```", scores, "```"]
  }

  function Render(chunk: Chunk): string {
    match chunk
    case Plain(lines) => Unlines(lines)
    case Answer(p) => HeadingLine(p.letter, p.id) + "\n\n" + p.text + Unlines(Fence(p.scores))
  }

  function RenderAll(doc: seq<Chunk>): string {
    if doc == [] then "" else Render(doc[0]) + RenderAll(doc[1..])
  }

  /** The sections of a document, read off its pieces. */
  function DocSections(doc: seq<Chunk>): Parsed {
    if doc == [] then Parsed("", [])
    else
      var rest := DocSections(doc[1..]);
      match doc[0]
      case Plain(lines) => Parsed(Unlines(lines) + rest.preamble, rest.sections)
      case Answer(p) =>
        var inside := Split(p.text, true);
        var after := Glue(Parsed("\n\n" + inside.preamble, inside.sections),
                          Parsed(Unlines(Fence(p.scores)) + rest.preamble, rest.sections));
        Parsed("", [Section(p.id, after.preamble)] + after.sections)
  }

  lemma FencePlain(scores: string)
    requires PlainLine(scores)
    ensures forall i | 0 <= i < |Fence(scores)| :: PlainLine(Fence(scores)[i])
  {
    assert "```"[0] == '`' && "###"[0] == '#';
    assert PlainLine("```") && PlainLine("");
  }

  lemma FenceText(scores: string, v: string)
    ensures Unlines(Fence(scores)) + v == "\n\n```" + ("\n" + scores + "\n```\n" + v)
  {
    var f := Fence(scores);
    assert Unlines(f[4..]) == "```\n" + Unlines(f[4..][1..]) && f[4..][1..] == [];
    assert f[3..][1..] == f[4..] && f[2..][1..] == f[3..] && f[1..][1..] == f[2..];
    assert Unlines(f[3..]) == scores + "\n" + Unlines(f[4..]);
    assert Unlines(f[2..]) == "```\n" + Unlines(f[3..]);
    assert Unlines(f[1..]) == "\n" + Unlines(f[2..]);
    assert Unlines(f) == "\n" + Unlines(f[1..]);
  }

  lemma SplitBody(p: Printed, v: string)
    requires PlainLine(p.scores)
    ensures Split(p.text + (Unlines(Fence(p.scores)) + v), true) ==
            Glue(Split(p.text, true),
                 Parsed(Unlines(Fence(p.scores)) + Split(v, true).preamble, Split(v, true).sections))
  {
    var fence := Unlines(Fence(p.scores)) + v;
    FenceText(p.scores, v);
    FenceIsDead("\n" + p.scores + "\n```\n" + v);
    SplitAppend(p.text, fence, true);
    FencePlain(p.scores);
    SplitPlain(Fence(p.scores), v);
  }

  lemma GlueBlank(p: Parsed, r: Parsed)
    ensures Glue(Parsed("\n\n" + p.preamble, p.sections), r) ==
            Parsed(['\n'] + (['\n'] + Glue(p, r).preamble), Glue(p, r).sections)
  {
    GlueChar('\n', p, r);
    GlueChar('\n', Parsed(['\n'] + p.preamble, p.sections), r);
    assert "\n\n" + p.preamble == ['\n'] + (['\n'] + p.preamble);
  }

  lemma SplitAnswer(p: Printed, v: string)
    requires WellFormed(Answer(p))
    ensures var inside := Split(p.text, true);
            var after := Glue(Parsed("\n\n" + inside.preamble, inside.sections),
                              Parsed(Unlines(Fence(p.scores)) + Split(v, true).preamble, Split(v, true).sections));
            Split(Render(Answer(p)) + v, true) == Parsed("", [Section(p.id, after.preamble)] + after.sections)
  {
    var body := p.text + (Unlines(Fence(p.scores)) + v);
    SplitBody(p, v);
    SplitAfterHeading(body);
    GlueBlank(Split(p.text, true),
              Parsed(Unlines(Fence(p.scores)) + Split(v, true).preamble, Split(v, true).sections));
    SplitHeading(p.letter, p.id, "\n\n" + body);
    RenderNested(p, v);
  }

  lemma Regroup(a: string, b: string, c: string, d: string, e: string)
    ensures a + b + c + d + e == a + (b + (c + (d + e)))
  {
  }

  lemma RenderNested(p: Printed, v: string)
    ensures Render(Answer(p)) + v ==
            HeadingLine(p.letter, p.id) + ("\n\n" + (p.text + (Unlines(Fence(p.scores)) + v)))
  {
    Regroup(HeadingLine(p.letter, p.id), "\n\n", p.text, Unlines(Fence(p.scores)), v);
  }

  lemma SplitHeading(letter: char, id: string, rest: string)
    requires 'A' <= letter <= 'E' && IsId(id)
    ensures Split(HeadingLine(letter, id) + rest, true) ==
            Parsed("", [Section(id, Split(rest, false).preamble)] + Split(rest, false).sections)
  {
    HeadingMatches(letter, id, rest);
  }

  /** The newline that ends the heading, and the blank line after it. */
  lemma SplitAfterHeading(body: string)
    ensures Split("\n\n" + body, false) ==
            Parsed(['\n'] + (['\n'] + Split(body, true).preamble), Split(body, true).sections)
  {
    var s := "\n\n" + body;
    assert s[0] == '\n' && s[1..] == "\n" + body;
    assert ("\n" + body)[0] == '\n' && ("\n" + body)[1..] == body;
    assert MatchHeading("\n" + body).None?;
  }

  lemma {:induction false} SplitDocument(doc: seq<Chunk>)
    requires forall i | 0 <= i < |doc| :: WellFormed(doc[i])
    ensures Split(RenderAll(doc), true) == DocSections(doc)
    decreases |doc|
  {
    if doc != [] {
      SplitDocument(doc[1..]);
      match doc[0]
      case Plain(lines) => SplitPlain(lines, RenderAll(doc[1..]));
      case Answer(p) => SplitAnswer(p, RenderAll(doc[1..]));
    }
  }

  // ---------------------------------------------------------------- which ids are found

  function Ids(sections: seq<Section>): (ids: seq<string>)
    ensures |ids| == |sections| && forall i | 0 <= i < |ids| :: ids[i] == sections[i].id
  {
    seq(|sections|, i requires 0 <= i < |sections| => sections[i].id)
  }

  /** The ids printed, each followed by those of any headings inside the answer itself. */
  function ExpectedIds(doc: seq<Chunk>): seq<string> {
    if doc == [] then []
    else
      match doc[0]
      case Plain(_) => ExpectedIds(doc[1..])
      case Answer(p) => [p.id] + Ids(Split(p.text, true).sections) + ExpectedIds(doc[1..])
  }

  function PrintedIds(doc: seq<Chunk>): seq<string> {
    if doc == [] then []
    else if doc[0].Answer? then [doc[0].printed.id] + PrintedIds(doc[1..])
    else PrintedIds(doc[1..])
  }

  predicate HeadingFree(text: string) {
    Split(text, true).sections == []
  }

  lemma GlueIds(p: Parsed, r: Parsed)
    ensures Ids(Glue(p, r).sections) == Ids(p.sections) + Ids(r.sections)
  {
  }

  lemma IdsCons(section: Section, sections: seq<Section>)
    ensures Ids([section] + sections) == [section.id] + Ids(sections)
  {
  }

  lemma {:induction false} DocIds(doc: seq<Chunk>)
    ensures Ids(DocSections(doc).sections) == ExpectedIds(doc)
    decreases |doc|
  {
    if doc != [] {
      DocIds(doc[1..]);
      if doc[0].Answer? {
        var p := doc[0].printed;
        var rest := DocSections(doc[1..]);
        var inside := Split(p.text, true);
        var after := Glue(Parsed("\n\n" + inside.preamble, inside.sections),
                          Parsed(Unlines(Fence(p.scores)) + rest.preamble, rest.sections));
        GlueIds(Parsed("\n\n" + inside.preamble, inside.sections),
                Parsed(Unlines(Fence(p.scores)) + rest.preamble, rest.sections));
        IdsCons(Section(p.id, after.preamble), after.sections);
        Associative([p.id], Ids(inside.sections), Ids(rest.sections));
      }
    }
  }

  /** The parser finds exactly the printed sections if and only if no answer contains a
      heading of its own. */
  lemma SectionsFoundExactly(doc: seq<Chunk>)
    requires forall i | 0 <= i < |doc| :: WellFormed(doc[i])
    ensures Ids(Split(RenderAll(doc), true).sections) == ExpectedIds(doc)
    ensures Ids(Split(RenderAll(doc), true).sections) == PrintedIds(doc) <==>
            forall i | 0 <= i < |doc| && doc[i].Answer? :: HeadingFree(doc[i].printed.text)
  {
    SplitDocument(doc);
    DocIds(doc);
    ExpectedLonger(doc);
  }

  lemma {:induction false} ExpectedLonger(doc: seq<Chunk>)
    ensures |ExpectedIds(doc)| >= |PrintedIds(doc)|
    ensures |ExpectedIds(doc)| == |PrintedIds(doc)| <==>
            forall i | 0 <= i < |doc| && doc[i].Answer? :: HeadingFree(doc[i].printed.text)
    ensures |ExpectedIds(doc)| == |PrintedIds(doc)| ==> ExpectedIds(doc) == PrintedIds(doc)
    decreases |doc|
  {
    if doc != [] {
      ExpectedLonger(doc[1..]);
      assert forall i | 0 <= i < |doc| - 1 :: doc[1..][i] == doc[i + 1];
      if doc[0].Answer? && HeadingFree(doc[0].printed.text) {
        assert Ids(Split(doc[0].printed.text, true).sections) == [];
      }
    }
  }
}
