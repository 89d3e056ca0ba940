/** Lines and sections of any text, said by positions. */
module SheetSearch {
  import opened Prelude
  import opened SheetScan
  import opened SheetSections
  import opened SheetMarks
  import opened SheetGrammar

  // ---------------------------------------------------------------- lines

  predicate IsBreakText(b: string) {
    b == "\r\n" || (|b| == 1 && IsBreak(b[0]))
  }

  /** The text is these lines, each with what ends it: a break, or for the last line the end of
      the text. A carriage return is a break of its own only if no newline follows. */
  ghost predicate Lined(s: string, lines: seq<string>, ends: seq<string>)
    decreases |lines|
  {
    |ends| == |lines| &&
    if lines == [] then s == ""
    else
      && lines[0] + ends[0] <= s && OneLine(lines[0])
      && var rest := s[|lines[0]| + |ends[0]|..];
         && (IsBreakText(ends[0]) || (ends[0] == "" && lines[0] != "" && rest == ""))
         && (ends[0] == "\r" ==> rest == "" || rest[0] != '\n')
         && Lined(rest, lines[1..], ends[1..])
  }

  /** What ends the line of `n` characters: a break, or nothing at the end of the text. */
  function EndAt(s: string, n: nat): string
    requires n <= |s|
  {
    if n == |s| then "" else if s[n] == '\r' && n + 1 < |s| && s[n + 1] == '\n' then "\r\n" else [s[n]]
  }

  lemma EndTaken(s: string, n: nat)
    requires n <= |s| && (n < |s| ==> IsBreak(s[n]))
    ensures var end := EndAt(s, n);
            && s[..n] + end <= s && (n < |s| ==> IsBreakText(end))
            && (end == "\r" ==> n + 1 == |s| || s[n + 1] != '\n')
  {
    var end := EndAt(s, n);
    assert s[..n] + end == s[..n + |end|];
  }

  lemma FirstLine(s: string) returns (end: string)
    requires s != ""
    ensures Line(s) + end <= s && OneLine(Line(s)) && Rest(s) == s[|Line(s)| + |end|..]
    ensures IsBreakText(end) || (end == "" && Line(s) != "" && Rest(s) == "")
    ensures end == "\r" ==> Rest(s) == "" || Rest(s)[0] != '\n'
  {
    var n := Span(NotBreak(), s);
    SpanStops(NotBreak(), s);
    end := EndAt(s, n);
    EndTaken(s, n);
    if n < |s| {
      RestAt(s, n);
    }
  }

  lemma {:induction false} LinesSound(s: string) returns (ends: seq<string>)
    ensures Lined(s, SplitLines(s), ends)
    decreases |s|
  {
    ends := [];
    if s != "" {
      var end := FirstLine(s);
      var rest := Rest(s);
      var more := LinesSound(rest);
      ends := [end] + more;
      SplitStep(s);
      LinedCons(s, Line(s), end, rest, SplitLines(rest), more);
    }
  }

  lemma LinedCons(s: string, line: string, end: string, rest: string, lines: seq<string>, ends: seq<string>)
    requires line + end <= s && rest == s[|line| + |end|..] && OneLine(line) && Lined(rest, lines, ends)
    requires IsBreakText(end) || (end == "" && line != "" && rest == "")
    requires end == "\r" ==> rest == "" || rest[0] != '\n'
    ensures Lined(s, [line] + lines, [end] + ends)
  {
    assert ([line] + lines)[1..] == lines && ([end] + ends)[1..] == ends;
  }

  lemma LineForced(s: string, line: string, end: string, rest: string)
    requires s == line + end + rest && OneLine(line) && (end == "\r" ==> rest == "" || rest[0] != '\n')
    requires IsBreakText(end) || (end == "" && line != "" && rest == "")
    ensures s != "" && Line(s) == line && Rest(s) == rest
  {
    assert s == line + (end + rest);
    SpanExact(NotBreak(), line, end + rest);
    assert s[..|line|] == line;
    if end != "" {
      RestAt(s, |line|);
      BreakPassed(s, line, end, rest);
    }
  }

  lemma BreakPassed(s: string, line: string, end: string, rest: string)
    requires s == line + (end + rest) && IsBreakText(end) && (end == "\r" ==> rest == "" || rest[0] != '\n')
    ensures var n := |line|;
            rest == if s[n] == '\r' && n + 1 < |s| && s[n + 1] == '\n' then s[n + 2..] else s[n + 1..]
  {
    assert s[|line| + |end|..] == rest;
    assert s[|line|] == end[0];
    if |end| == 1 && rest != "" {
      assert s[|line| + 1] == rest[0];
    }
  }

  lemma {:induction false} LinesComplete(s: string, lines: seq<string>, ends: seq<string>)
    requires Lined(s, lines, ends)
    ensures SplitLines(s) == lines
    decreases |lines|
  {
    if lines != [] {
      var line, end := lines[0], ends[0];
      var rest := s[|line| + |end|..];
      assert s == line + end + rest;
      LineForced(s, line, end, rest);
      LinesComplete(rest, lines[1..], ends[1..]);
      SplitStep(s);
      assert lines == [line] + lines[1..];
    }
  }

  ghost predicate CutInto(s: string, lines: seq<string>) {
    exists ends :: Lined(s, lines, ends)
  }

  /** The lines are the only ones the text can be cut into. */
  lemma LinesExactly(s: string, lines: seq<string>)
    ensures SplitLines(s) == lines <==> CutInto(s, lines)
  {
    var ends := LinesSound(s);
    assert CutInto(s, SplitLines(s));
    if CutInto(s, lines) {
      var others :| Lined(s, lines, others);
      LinesComplete(s, lines, others);
    }
  }

  // ---------------------------------------------------------------- the SCORES line

  ghost predicate ScoresParts(line: string, sp: string, rest: string) {
    Spaces(sp) && line == sp + "SCORES" + rest
  }

  lemma ScoresSurvivesTrim(t: string)
    requires "SCORES" <= t
    ensures "SCORES" <= TrimRight(t)
  {
    TrimRightPrefix(t);
    assert t[5] == 'S' && !IsSpace(t[5]);
    assert TrimRight(t)[..6] == t[..6] == "SCORES";
  }

  lemma ScoresSound(line: string) returns (sp: string, rest: string)
    requires IsScores(line)
    ensures ScoresParts(line, sp, rest)
  {
    var t := TrimLeft(line);
    TrimRightPrefix(t);
    sp := SpacesSkipped(line);
    rest := t[6..];
    assert t[..6] == TrimRight(t)[..6] == "SCORES";
    WordFirst(line, sp, t);
  }

  lemma WordFirst(line: string, sp: string, t: string)
    requires line == sp + t && "SCORES" <= t
    ensures line == sp + "SCORES" + t[6..]
  {
    assert t == "SCORES" + t[6..];
  }

  lemma ScoresComplete(line: string, sp: string, rest: string)
    requires ScoresParts(line, sp, rest)
    ensures IsScores(line)
  {
    var t := "SCORES" + rest;
    assert line == sp + t && t[0] == 'S';
    SkipSpaces(sp, t);
    assert t[..6] == "SCORES";
    ScoresSurvivesTrim(t);
  }

  /** Stripping and asking for the word at the start is asking for the word after spaces. */
  lemma ScoresExactly(line: string)
    ensures IsScores(line) <==> exists sp, rest :: ScoresParts(line, sp, rest)
  {
    if IsScores(line) {
      var sp, rest := ScoresSound(line);
    }
    if sp, rest :| ScoresParts(line, sp, rest) {
      ScoresComplete(line, sp, rest);
    }
  }

  ghost predicate NoScores(lines: seq<string>) {
    forall j | 0 <= j < |lines| :: !IsScores(lines[j])
  }

  ghost predicate IsLastScores(lines: seq<string>, i: int) {
    0 <= i < |lines| && IsScores(lines[i]) && forall j | i < j < |lines| :: !IsScores(lines[j])
  }

  lemma LastCons(line: string, rest: seq<string>, i: int)
    requires IsLastScores(rest, i)
    ensures IsLastScores([line] + rest, i + 1)
  {
    var lines := [line] + rest;
    assert forall j | 0 < j < |lines| :: lines[j] == rest[j - 1];
  }

  lemma FirstIsLast(line: string, rest: seq<string>)
    requires IsScores(line) && NoScores(rest)
    ensures IsLastScores([line] + rest, 0)
  {
    var lines := [line] + rest;
    assert forall j | 0 < j < |lines| :: lines[j] == rest[j - 1];
  }

  lemma NoneCons(line: string, rest: seq<string>)
    requires !IsScores(line) && NoScores(rest)
    ensures NoScores([line] + rest)
  {
    var lines := [line] + rest;
    assert forall j | 0 < j < |lines| :: lines[j] == rest[j - 1];
  }

  lemma {:induction false} LastOfCandidates(lines: seq<string>) returns (i: int)
    ensures Candidates(lines) == [] <==> NoScores(lines)
    ensures Candidates(lines) != [] ==>
              IsLastScores(lines, i) && lines[i] == Candidates(lines)[|Candidates(lines)| - 1]
    decreases |lines|
  {
    i := 0;
    if lines != [] {
      var line, rest := lines[0], lines[1..];
      assert lines == [line] + rest;
      i := LastOfCandidates(rest);
      if Candidates(rest) != [] {
        LastCons(line, rest, i);
        i := i + 1;
      } else if IsScores(line) {
        FirstIsLast(line, rest);
        i := 0;
      } else {
        NoneCons(line, rest);
      }
    }
  }

  /** The line read is the last one of the section that begins with the word, its place being
      `i`; there is none exactly when no line does. */
  lemma ScoresLineExactly(block: string) returns (i: int)
    ensures ScoresLine(block) == None <==> NoScores(SplitLines(block))
    ensures ScoresLine(block).Some? ==>
              IsLastScores(SplitLines(block), i) && SplitLines(block)[i] == ScoresLine(block).value
  {
    var lines := SplitLines(block);
    i := LastOfCandidates(lines);
    assert ScoresLine(block) == None <==> Candidates(lines) == [];
  }

  // ---------------------------------------------------------------- sections

  /** A heading stands at position `p`, at the beginning of a line. */
  ghost predicate HeadingAt(s: string, p: int, lineStart: bool) {
    0 <= p <= |s| && (if p == 0 then lineStart else s[p - 1] == '\n') && MatchHeading(s[p..]).Some?
  }

  lemma HeadingAtNext(s: string, p: nat, lineStart: bool)
    requires s != "" && p <= |s| - 1
    ensures HeadingAt(s[1..], p, s[0] == '\n') <==> HeadingAt(s, p + 1, lineStart)
  {
    assert s[1..][p..] == s[p + 1..];
  }

  /** Text without a heading at the beginning of any line is one preamble. */
  lemma {:induction false} SplitNone(s: string, lineStart: bool)
    requires forall p :: !HeadingAt(s, p, lineStart)
    ensures Split(s, lineStart) == Parsed(s, [])
    decreases |s|
  {
    assert s[0..] == s;
    assert !HeadingAt(s, 0, lineStart);
    if s != "" {
      var t, next := s[1..], s[0] == '\n';
      forall p ensures !HeadingAt(t, p, next) {
        if 0 <= p <= |s| - 1 {
          HeadingAtNext(s, p, lineStart);
        }
      }
      SplitNone(t, next);
    }
  }

  /** Otherwise the first one ends the preamble; what follows it is split on, starting in the
      middle of the heading's line. */
  lemma {:induction false} SplitFirst(s: string, lineStart: bool, p: nat)
    requires HeadingAt(s, p, lineStart) && forall q | 0 <= q < p :: !HeadingAt(s, q, lineStart)
    ensures var h := MatchHeading(s[p..]).value;
            var after := Split(h.rest, false);
            Split(s, lineStart) == Parsed(s[..p], [Section(h.id, after.preamble)] + after.sections)
    decreases |s|
  {
    assert s[0..] == s;
    if p == 0 {
      NeedsHashes(s);
    } else {
      assert !HeadingAt(s, 0, lineStart);
      HeadingAtNext(s, p - 1, lineStart);
      var t, next := s[1..], s[0] == '\n';
      forall q | 0 <= q < p - 1 ensures !HeadingAt(t, q, next) {
        HeadingAtNext(s, q, lineStart);
      }
      SplitFirst(t, next, p - 1);
      assert t[p - 1..] == s[p..];
      assert [s[0]] + t[..p - 1] == s[..p];
    }
  }
}
