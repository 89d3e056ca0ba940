/** Reading one section: its SCORES line, and the marks on that line. */
module SheetMarks {
  import opened Prelude
  import opened SheetScan
  import opened SheetSections

  // ---------------------------------------------------------------- lines

  /** Where `splitlines` breaks a line. */
  predicate IsBreak(c: char) {
    || '\n' <= c <= '\r' || '\U{1C}' <= c <= '\U{1E}' || c == '\U{85}' || c == '\U{2028}' || c == '\U{2029}'
  }

  function NotBreak(): char -> bool {
    c => !IsBreak(c)
  }

  function Line(s: string): string {
    s[..Span(NotBreak(), s)]
  }

  /** What follows the first line; a carriage return with its newline is one break. */
  function Rest(s: string): (rest: string)
    ensures s != "" ==> |rest| < |s|
  {
    var n := Span(NotBreak(), s);
    if n == |s| then ""
    else if s[n] == '\r' && n + 1 < |s| && s[n + 1] == '\n' then s[n + 2..]
    else s[n + 1..]
  }

  /** `splitlines`: no empty line after a final break. */
  function SplitLines(s: string): seq<string>
    decreases |s|
  {
    if s == "" then [] else [Line(s)] + SplitLines(Rest(s))
  }

  function TrimLeft(s: string): string {
    SkipSpace(s)
  }

  function TrimRight(s: string): string {
    if s == "" || !IsSpace(s[|s| - 1]) then s else TrimRight(s[..|s| - 1])
  }

  /** `line.strip().startswith("SCORES")` */
  predicate IsScores(line: string) {
    "SCORES" <= TrimRight(TrimLeft(line))
  }

  function Candidates(lines: seq<string>): seq<string> {
    if lines == [] then [] else Picked(lines[0]) + Candidates(lines[1..])
  }

  function Picked(line: string): seq<string> {
    if IsScores(line) then [line] else []
  }

  /** The last SCORES line of a section: the one below the untrusted answer. */
  function ScoresLine(block: string): Option<string> {
    var candidates := Candidates(SplitLines(block));
    if candidates == [] then None else Some(candidates[|candidates| - 1])
  }

  lemma BreakInside(w: string, v: string)
    requires w != "" && w[|w| - 1] == '\n'
    ensures Span(NotBreak(), w) < |w| && Span(NotBreak(), w + v) == Span(NotBreak(), w)
  {
    assert !NotBreak()('\n');
    SpanStops(NotBreak(), w);
    SpanThrough(NotBreak(), w, v);
  }

  lemma DropAppend(w: string, v: string, n: nat)
    requires n <= |w|
    ensures (w + v)[n..] == w[n..] + v
  {
  }

  lemma RestAt(s: string, n: nat)
    requires n == Span(NotBreak(), s) < |s|
    ensures Rest(s) == if s[n] == '\r' && n + 1 < |s| && s[n + 1] == '\n' then s[n + 2..] else s[n + 1..]
  {
  }

  lemma RestAppend(w: string, v: string)
    requires w != "" && w[|w| - 1] == '\n'
    ensures Rest(w + v) == Rest(w) + v
  {
    BreakInside(w, v);
    var n := Span(NotBreak(), w);
    RestAt(w, n);
    RestAt(w + v, n);
    BreakAppend(w, v, n);
  }

  lemma BreakAppend(w: string, v: string, n: nat)
    requires n < |w| && w[|w| - 1] == '\n'
    ensures (w + v)[n] == w[n] && (n + 1 < |w| ==> (w + v)[n + 1] == w[n + 1])
    ensures (w + v)[n + 1..] == w[n + 1..] + v
    ensures n + 2 <= |w| ==> (w + v)[n + 2..] == w[n + 2..] + v
    ensures w[n] == '\r' ==> n + 1 < |w|
  {
    DropAppend(w, v, n + 1);
    if n + 2 <= |w| {
      DropAppend(w, v, n + 2);
    }
  }

  lemma RestEndsLine(w: string)
    requires w != "" && w[|w| - 1] == '\n'
    ensures Rest(w) == "" || Rest(w)[|Rest(w)| - 1] == '\n'
  {
  }

  lemma LineAppend(w: string, v: string)
    requires w != "" && w[|w| - 1] == '\n'
    ensures Line(w + v) == Line(w)
  {
    BreakInside(w, v);
    var n := Span(NotBreak(), w);
    assert (w + v)[..n] == w[..n];
  }

  lemma {:induction false} SplitLinesAppend(w: string, v: string)
    requires w != "" && w[|w| - 1] == '\n'
    ensures SplitLines(w + v) == SplitLines(w) + SplitLines(v)
    decreases |w|
  {
    SplitStepAppend(w, v);
    RestEndsLine(w);
    if Rest(w) == "" {
      assert Rest(w) + v == v;
    } else {
      SplitLinesAppend(Rest(w), v);
    }
    Associative([Line(w)], SplitLines(Rest(w)), SplitLines(v));
  }

  lemma SplitStepAppend(w: string, v: string)
    requires w != "" && w[|w| - 1] == '\n'
    ensures SplitLines(w) == [Line(w)] + SplitLines(Rest(w))
    ensures SplitLines(w + v) == [Line(w)] + SplitLines(Rest(w) + v)
  {
    LineAppend(w, v);
    RestAppend(w, v);
    SplitStep(w);
    SplitStep(w + v);
  }

  lemma SplitStep(s: string)
    requires s != ""
    ensures SplitLines(s) == [Line(s)] + SplitLines(Rest(s))
  {
  }

  /** A maximal prefix that ends inside `w` is the same in any continuation. */
  lemma {:induction false} SpanThrough(p: char -> bool, w: string, v: string)
    requires Span(p, w) < |w|
    ensures Span(p, w + v) == Span(p, w)
    decreases |w|
  {
    assert (w + v)[0] == w[0];
    if p(w[0]) {
      assert (w + v)[1..] == w[1..] + v;
      SpanThrough(p, w[1..], v);
    }
  }

  /** One line of text: it contains no break of any kind. */
  predicate OneLine(line: string) {
    forall i | 0 <= i < |line| :: !IsBreak(line[i])
  }

  lemma SplitOneLine(line: string, v: string)
    requires OneLine(line)
    ensures SplitLines(line + "\n" + v) == [line] + SplitLines(v)
  {
    var s := line + "\n" + v;
    var rest := "\n" + v;
    SpanExact(NotBreak(), line, rest);
    assert s == line + rest;
    assert s[..|line|] == line && s[|line|] == '\n' && s[|line| + 1..] == v;
  }

  lemma {:induction false} SplitUnlines(lines: seq<string>)
    requires forall i | 0 <= i < |lines| :: OneLine(lines[i])
    ensures SplitLines(Unlines(lines)) == lines
    decreases |lines|
  {
    if lines != [] {
      var first, rest := lines[0], lines[1..];
      assert OneLine(first);
      SplitUnlines(rest);
      SplitOneLine(first, Unlines(rest));
      UnlinesCons(first, rest);
      assert lines == [first] + rest;
    }
  }

  lemma UnlinesCons(first: string, rest: seq<string>)
    ensures Unlines([first] + rest) == first + "\n" + Unlines(rest)
  {
    assert ([first] + rest)[1..] == rest;
  }

  lemma {:induction false} CandidatesAppend(a: seq<string>, b: seq<string>)
    ensures Candidates(a + b) == Candidates(a) + Candidates(b)
    decreases |a|
  {
    if a == [] {
      assert a + b == b;
    } else {
      var first, rest := a[0], a[1..];
      assert (a + b)[0] == first && (a + b)[1..] == rest + b;
      CandidatesAppend(rest, b);
      Associative(Picked(first), Candidates(rest), Candidates(b));
    }
  }

  // ---------------------------------------------------------------- lines that cannot be mistaken

  lemma {:induction false} TrimRightPrefix(s: string)
    ensures TrimRight(s) <= s
    ensures forall i | 0 <= i < |s| && !IsSpace(s[i]) :: i < |TrimRight(s)|
    decreases |s|
  {
    if s != "" && IsSpace(s[|s| - 1]) {
      TrimRightPrefix(s[..|s| - 1]);
    }
  }

  /** The first character that is not a space is something else than S. */
  predicate Quiet(line: string) {
    OneLine(line) && (TrimLeft(line) == "" || TrimLeft(line)[0] != 'S')
  }

  lemma QuietIsNoCandidate(line: string)
    requires Quiet(line)
    ensures !IsScores(line)
  {
    assert "SCORES"[0] == 'S';
    TrimRightPrefix(TrimLeft(line));
  }

  lemma {:induction false} QuietLines(lines: seq<string>)
    requires forall i | 0 <= i < |lines| :: Quiet(lines[i])
    ensures Candidates(lines) == []
    decreases |lines|
  {
    if lines != [] {
      QuietIsNoCandidate(lines[0]);
      QuietLines(lines[1..]);
    }
  }

  lemma ScoresLineIsCandidate(line: string)
    requires "SCORES" <= line
    ensures IsScores(line)
  {
    assert line[0] == 'S' && line[5] == 'S';
    SkipNothing(line);
    TrimRightPrefix(line);
    assert 5 < |TrimRight(line)|;
    assert TrimRight(line)[..6] == line[..6] == "SCORES";
  }

  lemma LastCandidate(before: seq<string>, scores: string, after: seq<string>)
    requires "SCORES" <= scores && forall i | 0 <= i < |after| :: Quiet(after[i])
    ensures Candidates(before + ([scores] + after)) == Candidates(before) + [scores]
  {
    CandidatesAppend(before, [scores] + after);
    assert ([scores] + after)[1..] == after;
    ScoresLineIsCandidate(scores);
    QuietLines(after);
  }

  lemma FenceIsQuiet(tail: seq<string>)
    requires forall i | 0 <= i < |tail| :: Quiet(tail[i])
    ensures forall i | 0 <= i < |["```"] + tail| :: Quiet((["```"] + tail)[i])
  {
    SkipNothing("```");
    assert Quiet("```");
  }

  lemma SectionLines(text: string, scores: string, tail: seq<string>)
    requires OneLine(scores) && forall i | 0 <= i < |tail| :: OneLine(tail[i])
    ensures SplitLines(text + Unlines(Fence(scores)) + Unlines(tail)) ==
            SplitLines(text + "\n") + (["", "```"] + ([scores] + (["```"] + tail)))
  {
    var lines := ["", "```"] + ([scores] + (["```"] + tail));
    FenceLines(scores, tail);
    assert OneLine("```") && OneLine("");
    SplitUnlines(lines);
    SplitLinesAppend(text + "\n", Unlines(lines));
    RegroupText(text, Unlines(Fence(scores)), Unlines(tail), Unlines(lines));
  }

  lemma RegroupText(a: string, b: string, c: string, d: string)
    requires b + c == "\n" + d
    ensures a + b + c == a + "\n" + d
  {
    assert a + b + c == a + (b + c);
    assert a + "\n" + d == a + ("\n" + d);
  }

  /** Whatever the text above says, the line read is the generator's: it is the last candidate as
      long as everything printed after it is quiet. */
  lemma ScoresLineFound(text: string, scores: string, tail: seq<string>)
    requires "SCORES" <= scores && OneLine(scores)
    requires forall i | 0 <= i < |tail| :: Quiet(tail[i])
    ensures ScoresLine(text + Unlines(Fence(scores)) + Unlines(tail)) == Some(scores)
  {
    SectionLines(text, scores, tail);
    FenceIsQuiet(tail);
    var before, after := SplitLines(text + "\n") + ["", "```"], ["```"] + tail;
    LastCandidate(before, scores, after);
    Associative(SplitLines(text + "\n"), ["", "```"], [scores] + after);
  }

  lemma FenceLines(scores: string, tail: seq<string>)
    ensures Unlines(Fence(scores)) + Unlines(tail) == "\n" + Unlines(["", "```"] + ([scores] + (["```"] + tail)))
  {
    UnlinesAppend(Fence(scores), tail);
    var all := Fence(scores) + tail;
    assert all[0] == "" && all[1..] == ["", "```"] + ([scores] + (["```"] + tail));
  }

  lemma {:induction false} UnlinesAppend(a: seq<string>, b: seq<string>)
    ensures Unlines(a + b) == Unlines(a) + Unlines(b)
    decreases |a|
  {
    if a == [] {
      assert a + b == b;
    } else {
      assert (a + b)[0] == a[0] && (a + b)[1..] == a[1..] + b;
      UnlinesAppend(a[1..], b);
    }
  }

  // ---------------------------------------------------------------- marks on a line

  /** `\w`, for the characters that can stand before a dimension's name. */
  predicate IsWord(c: char) {
    IsLower(c) || 'A' <= c <= 'Z' || IsDigit(c) || c == '_'
  }

  /** `name\s*=\s*([0-9]+|_)` at the start of `s`. */
  function MatchMark(s: string, name: string): Option<string> {
    if !(name <= s) then None
    else
      var s1 := SkipSpace(s[|name|..]);
      if s1 == "" || s1[0] != '=' then None
      else ReadValue(SkipSpace(s1[1..]))
  }

  /** `[0-9]+|_` */
  function ReadValue(s: string): Option<string> {
    var n := Span(IsDigit, s);
    if n > 0 then Some(s[..n]) else if s != "" && s[0] == '_' then Some("_") else None
  }

  /** The leftmost match of `\bname...`; `inWord` says whether the character before is a word
      character. */
  function FindMark(s: string, inWord: bool, name: string): Option<string> {
    if !inWord && MatchMark(s, name).Some? then MatchMark(s, name)
    else if s == "" then None
    else FindMark(s[1..], IsWord(s[0]), name)
  }

  /** What a match can capture: a blank, or digits. */
  predicate IsEntry(e: string) {
    e == "_" || (e != "" && forall i | 0 <= i < |e| :: IsDigit(e[i]))
  }

  /** What can be typed after a dimension's `=`: anything on one line, save another `=`. */
  predicate IsTyped(e: string) {
    OneLine(e) && '=' !in e
  }

  /** What is read of it: a leading number or blank, spaces aside, and nothing after that. */
  function Reading(e: string): Option<string> {
    ReadValue(SkipSpace(e))
  }

  predicate IsName(name: string) {
    name != "" && forall i | 0 <= i < |name| :: IsLower(name[i])
  }

  /** Two spaces, the name, an equals sign and the entry, for each dimension in turn. */
  function Fields(names: seq<string>, entries: seq<string>): string
    requires |names| == |entries|
  {
    if names == [] then "" else "  " + names[0] + "=" + entries[0] + Fields(names[1..], entries[1..])
  }

  lemma {:induction false} NoMatchInside(u: string, v: string, name: string)
    requires IsName(name) && forall i | 0 <= i < |u| :: IsWord(u[i])
    ensures FindMark(u + v, true, name) == FindMark(v, true, name)
    decreases |u|
  {
    if u == "" {
      assert u + v == v;
    } else {
      assert (u + v)[0] == u[0] && (u + v)[1..] == u[1..] + v;
      NoMatchInside(u[1..], v, name);
    }
  }

  /** No name starts at a character that is not a lower-case letter. */
  lemma NoMatchAt(c: char, v: string, name: string, inWord: bool)
    requires IsName(name) && !IsLower(c)
    ensures FindMark([c] + v, inWord, name) == FindMark(v, IsWord(c), name)
  {
    assert ([c] + v)[0] == c && IsLower(name[0]);
    StepPast(c, v, name, inWord);
  }

  lemma StepPast(c: char, v: string, name: string, inWord: bool)
    requires MatchMark([c] + v, name).None?
    ensures FindMark([c] + v, inWord, name) == FindMark(v, IsWord(c), name)
  {
    assert ([c] + v)[1..] == v;
  }

  /** Another dimension's name, even one that begins the same, is not this one's. */
  lemma OtherName(other: string, v: string, name: string)
    requires IsName(other) && IsName(name) && other != name
    ensures MatchMark(other + "=" + v, name).None?
  {
    var s := other + "=" + v;
    if name <= s {
      PrefixOfName(other, v, name);
      LetterFollows(s[|name|..], other[|name|]);
    }
  }

  lemma LetterFollows(s: string, c: char)
    requires s != "" && s[0] == c && IsLower(c)
    ensures SkipSpace(s) == s && s[0] != '='
  {
    SkipNothing(s);
  }

  /** Names hold no equals sign, so a name that starts the field is a shorter name. */
  lemma PrefixOfName(other: string, v: string, name: string)
    requires IsName(other) && IsName(name) && other != name && name <= other + "=" + v
    ensures |name| < |other|
  {
    var s := other + "=" + v;
    assert s[|other|] == '=' && s[..|other|] == other;
    assert s[..|name|] == name;
  }

  // ---------------------------------------------------------------- past a typed entry

  /** What follows an entry: the next field, or nothing. */
  predicate Follows(v: string) {
    v == "" || (|v| >= 3 && v[0] == ' ' && v[1] == ' ' && IsLower(v[2]))
  }

  lemma {:induction false} SkipSpaceAppend(e: string, v: string)
    ensures SkipSpace(e + v) == if SkipSpace(e) == "" then SkipSpace(v) else SkipSpace(e) + v
    decreases |e|
  {
    if e == "" {
      assert e + v == v;
    } else {
      assert (e + v)[0] == e[0] && (e + v)[1..] == e[1..] + v;
      if IsSpace(e[0]) {
        SkipSpaceAppend(e[1..], v);
        SkipSpaceStep(e);
        SkipSpaceStep(e + v);
      } else {
        SkipNothing(e);
        SkipNothing(e + v);
      }
    }
  }

  lemma SkipSpaceStep(s: string)
    requires s != "" && IsSpace(s[0])
    ensures SkipSpace(s) == SkipSpace(s[1..])
  {
  }

  /** Past the spaces the next field begins with a letter. */
  lemma FollowsSkipped(v: string)
    requires Follows(v)
    ensures SkipSpace(v) == "" || IsLower(SkipSpace(v)[0])
  {
    if v != "" {
      SkipSpaceStep(v);
      SkipSpaceStep(v[1..]);
      assert v[1..][1..][0] == v[2];
      SkipNothing(v[1..][1..]);
    }
  }

  lemma {:induction false} SpanBefore(p: char -> bool, u: string, v: string)
    requires v == "" || !p(v[0])
    ensures Span(p, u + v) == Span(p, u)
    decreases |u|
  {
    if u == "" {
      assert u + v == v;
    } else {
      assert (u + v)[0] == u[0] && (u + v)[1..] == u[1..] + v;
      SpanBefore(p, u[1..], v);
    }
  }

  lemma ReadBefore(t: string, v: string)
    requires t != "" && (v == "" || v[0] == ' ')
    ensures ReadValue(t + v) == ReadValue(t)
  {
    SpanBefore(IsDigit, t, v);
    var n := Span(IsDigit, t);
    assert (t + v)[..n] == t[..n] && (t + v)[0] == t[0];
  }

  /** An entry reads the same whatever field follows it. */
  lemma ReadingInPlace(e: string, v: string)
    requires Follows(v)
    ensures ReadValue(SkipSpace(e + v)) == Reading(e)
  {
    SkipSpaceAppend(e, v);
    FollowsSkipped(v);
    if SkipSpace(e) != "" {
      ReadBefore(SkipSpace(e), v);
    }
  }

  /** No field of any name begins inside an entry. */
  lemma NoneInside(t: string, v: string, name: string)
    requires t != "" && '=' !in t && Follows(v) && IsName(name)
    ensures MatchMark(t + v, name).None?
  {
    if name <= t + v {
      NameFits(t, v, name);
      var u := t[|name|..];
      assert (t + v)[|name|..] == u + v;
      SkipSpaceAppend(u, v);
      FollowsSkipped(v);
      SkippedIsEnd(u);
    }
  }

  lemma {:induction false} SkippedIsEnd(s: string)
    ensures SkipSpace(s) == s[|s| - |SkipSpace(s)|..]
  {
    if s != "" && IsSpace(s[0]) {
      SkippedIsEnd(s[1..]);
    }
  }

  lemma NameFits(t: string, v: string, name: string)
    requires Follows(v) && IsName(name) && name <= t + v
    ensures |name| <= |t|
  {
    assert forall i | 0 <= i < |name| :: (t + v)[i] == name[i] && IsLower((t + v)[i]);
    assert v != "" ==> (t + v)[|t|] == ' ';
  }

  lemma NameNeedsText(name: string, inWord: bool)
    requires IsName(name)
    ensures FindMark("", inWord, name) == None
  {
  }

  /** A field starts afresh, whatever came before it. */
  lemma FollowsAfresh(v: string, name: string, inWord: bool)
    requires Follows(v) && IsName(name)
    ensures FindMark(v, inWord, name) == FindMark(v, true, name)
  {
    if v == "" {
      NameNeedsText(name, inWord);
      NameNeedsText(name, true);
    } else {
      assert v == [' '] + v[1..];
      NoMatchAt(' ', v[1..], name, inWord);
      NoMatchAt(' ', v[1..], name, true);
    }
  }

  lemma {:induction false} SkipTyped(e: string, v: string, name: string, inWord: bool)
    requires '=' !in e && Follows(v) && IsName(name)
    ensures FindMark(e + v, inWord, name) == FindMark(v, true, name)
    decreases |e|
  {
    if e == "" {
      assert e + v == v;
      FollowsAfresh(v, name, inWord);
    } else {
      NoneInside(e, v, name);
      assert e + v == [e[0]] + (e[1..] + v);
      StepPast(e[0], e[1..] + v, name, inWord);
      SkipTyped(e[1..], v, name, IsWord(e[0]));
    }
  }

  // ---------------------------------------------------------------- past a field

  lemma SkipField(other: string, entry: string, v: string, name: string, inWord: bool)
    requires IsName(other) && IsName(name) && other != name && IsTyped(entry) && Follows(v)
    ensures FindMark("  " + other + "=" + entry + v, inWord, name) == FindMark(v, true, name)
  {
    var value := entry + v;
    assert "  " + other + "=" + entry + v == "  " + (other + ("=" + value));
    SkipGapAndName(other, value, name, inWord);
    SkipValue(entry, v, name);
  }

  lemma SkipGapAndName(other: string, v: string, name: string, inWord: bool)
    requires IsName(other) && IsName(name) && other != name
    ensures FindMark("  " + (other + ("=" + v)), inWord, name) == FindMark("=" + v, true, name)
  {
    SkipGap(other + ("=" + v), name, inWord);
    SkipName(other, v, name);
  }

  lemma SkipValue(entry: string, v: string, name: string)
    requires IsName(name) && '=' !in entry && Follows(v)
    ensures FindMark("=" + (entry + v), true, name) == FindMark(v, true, name)
  {
    SkipEquals(entry + v, name);
    SkipTyped(entry, v, name, false);
  }

  lemma SkipGap(v: string, name: string, inWord: bool)
    requires IsName(name)
    ensures FindMark("  " + v, inWord, name) == FindMark(v, false, name)
  {
    var once := [' '] + v;
    assert "  " + v == [' '] + once;
    NoMatchAt(' ', once, name, inWord);
    NoMatchAt(' ', v, name, false);
  }

  lemma SkipEquals(v: string, name: string)
    requires IsName(name)
    ensures FindMark("=" + v, true, name) == FindMark(v, false, name)
  {
    NoMatchAt('=', v, name, true);
    assert "=" + v == ['='] + v;
  }

  lemma SkipName(other: string, v: string, name: string)
    requires IsName(other) && IsName(name) && other != name
    ensures FindMark(other + ("=" + v), false, name) == FindMark("=" + v, true, name)
  {
    OtherName(other, v, name);
    NameApart(other, "=" + v);
    assert other + "=" + v == other + ("=" + v);
    PastName(other[0], other[1..], "=" + v, name);
  }

  lemma NameApart(name: string, v: string)
    requires IsName(name)
    ensures name + v == [name[0]] + (name[1..] + v)
    ensures IsLower(name[0]) && forall i | 0 <= i < |name| - 1 :: IsLower(name[1..][i])
  {
  }

  /** A name without a match at its start is passed whole. */
  lemma PastName(first: char, more: string, v: string, name: string)
    requires IsName(name) && MatchMark([first] + (more + v), name).None?
    requires IsLower(first) && forall i | 0 <= i < |more| :: IsLower(more[i])
    ensures FindMark([first] + (more + v), false, name) == FindMark(v, true, name)
  {
    StepPast(first, more + v, name, false);
    NoMatchInside(more, v, name);
  }

  lemma MatchesOwn(name: string, value: string)
    ensures MatchMark(name + ("=" + value), name) == ReadValue(SkipSpace(value))
  {
    var field := name + ("=" + value);
    assert field[..|name|] == name && field[|name|..] == "=" + value;
    SkipNothing("=" + value);
    assert ("=" + value)[1..] == value;
  }

  /** A field gives its entry's reading, or, if there is none, nothing at all. */
  lemma OwnField(name: string, entry: string, v: string, inWord: bool)
    requires IsName(name) && IsTyped(entry) && Follows(v)
    ensures FindMark("  " + name + "=" + entry + v, inWord, name)
         == if Reading(entry).Some? then Reading(entry) else FindMark(v, true, name)
  {
    var value := entry + v;
    var field := name + ("=" + value);
    assert "  " + name + "=" + entry + v == "  " + field;
    SkipGap(field, name, inWord);
    MatchesOwn(name, value);
    ReadingInPlace(entry, v);
    if Reading(entry).None? {
      NameApart(name, "=" + value);
      PastName(name[0], name[1..], "=" + value, name);
      SkipValue(entry, v, name);
    }
  }

  lemma FieldsFollow(names: seq<string>, entries: seq<string>)
    requires |names| == |entries| && forall i | 0 <= i < |names| :: IsName(names[i])
    ensures Follows(Fields(names, entries))
  {
    if names != [] {
      var text := Fields(names, entries);
      assert text[0] == ' ' && text[1] == ' ' && text[2] == names[0][0];
    }
  }

  lemma {:induction false} FieldAbsent(names: seq<string>, entries: seq<string>, name: string, inWord: bool)
    requires |names| == |entries| && IsName(name) && name !in names
    requires forall i | 0 <= i < |names| :: IsName(names[i]) && IsTyped(entries[i])
    ensures FindMark(Fields(names, entries), inWord, name) == None
    decreases |names|
  {
    if names == [] {
      NameNeedsText(name, inWord);
    } else {
      var rest := Fields(names[1..], entries[1..]);
      FieldsFollow(names[1..], entries[1..]);
      SkipField(names[0], entries[0], rest, name, inWord);
      FieldAbsent(names[1..], entries[1..], name, true);
    }
  }

  /** Each dimension's entry is read, whatever stands in the others. */
  lemma {:induction false} FieldFound(names: seq<string>, entries: seq<string>, k: nat, inWord: bool)
    requires |names| == |entries| && k < |names|
    requires forall i | 0 <= i < |names| :: IsName(names[i]) && IsTyped(entries[i])
    requires forall i, j | 0 <= i < j < |names| :: names[i] != names[j]
    ensures FindMark(Fields(names, entries), inWord, names[k]) == Reading(entries[k])
    decreases |names|
  {
    var rest := Fields(names[1..], entries[1..]);
    FieldsFollow(names[1..], entries[1..]);
    if k == 0 {
      OwnField(names[0], entries[0], rest, inWord);
      FieldAbsent(names[1..], entries[1..], names[0], true);
    } else {
      SkipField(names[0], entries[0], rest, names[k], inWord);
      FieldFound(names[1..], entries[1..], k - 1, true);
    }
  }

  /** The generator's line, with the given entries typed in. */
  function ScoresText(names: seq<string>, entries: seq<string>): string
    requires |names| == |entries|
  {
    "SCORES" + Fields(names, entries)
  }

  /** A word that begins with no lower-case letter is passed whole. */
  lemma SkipWord(first: char, more: string, v: string, name: string)
    requires IsName(name) && !IsLower(first) && IsWord(first) && forall i | 0 <= i < |more| :: IsWord(more[i])
    ensures FindMark([first] + (more + v), false, name) == FindMark(v, true, name)
  {
    NoMatchAt(first, more + v, name, false);
    NoMatchInside(more, v, name);
  }

  lemma MarkFound(names: seq<string>, entries: seq<string>, k: nat)
    requires |names| == |entries| && k < |names|
    requires forall i | 0 <= i < |names| :: IsName(names[i]) && IsTyped(entries[i])
    requires forall i, j | 0 <= i < j < |names| :: names[i] != names[j]
    ensures FindMark(ScoresText(names, entries), false, names[k]) == Reading(entries[k])
  {
    assert ScoresText(names, entries) == ['S'] + ("CORES" + Fields(names, entries));
    SkipWord('S', "CORES", Fields(names, entries), names[k]);
    FieldFound(names, entries, k, true);
  }
}
