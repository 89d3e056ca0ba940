/** What the scanners accept, said without them: each regular expression as the pieces a match
    is made of, each search as the first place one matches. */
module SheetGrammar {
  import opened Prelude
  import opened SheetScan
  import opened SheetSections
  import opened SheetMarks

  predicate Spaces(s: string) {
    forall i | 0 <= i < |s| :: IsSpace(s[i])
  }

  lemma {:induction false} SkipSpaces(sp: string, t: string)
    requires Spaces(sp) && (t == "" || !IsSpace(t[0]))
    ensures SkipSpace(sp + t) == t
    decreases |sp|
  {
    if sp == "" {
      assert sp + t == t;
      SkipNothing(t);
    } else {
      assert (sp + t)[0] == sp[0] && (sp + t)[1..] == sp[1..] + t;
      SkipSpaces(sp[1..], t);
    }
  }

  /** The spaces `SkipSpace` passes over. */
  lemma {:induction false} SpacesSkipped(s: string) returns (sp: string)
    ensures Spaces(sp) && s == sp + SkipSpace(s)
    ensures SkipSpace(s) == "" || !IsSpace(SkipSpace(s)[0])
  {
    sp := "";
    if s != "" && IsSpace(s[0]) {
      var rest := SpacesSkipped(s[1..]);
      sp := [s[0]] + rest;
      assert s == [s[0]] + s[1..];
    }
  }

  // ---------------------------------------------------------------- section headings

  /** `###\s+[A-E]\.\s+`([a-z0-9]+)`` and what follows. */
  ghost predicate HeadingParts(s: string, gap1: string, letter: char, gap2: string, id: string, rest: string) {
    && Spaces(gap1) && gap1 != "" && 'A' <= letter <= 'E' && Spaces(gap2) && gap2 != ""
    && id != "" && (forall i | 0 <= i < |id| :: 'a' <= id[i] <= 'z' || '0' <= id[i] <= '9')
    && s == "###" + gap1 + [letter] + "." + gap2 + "`" + id + "`" + rest
  }

  lemma {:induction false} ScanGap1(gap: string, t: string)
    requires Spaces(gap) && t != "" && !IsSpace(t[0])
    ensures Scan(Gap1More, gap + t, "") == Scan(Gap1More, t, "")
    decreases |gap|
  {
    if gap == "" {
      assert gap + t == t;
    } else {
      assert (gap + t)[0] == gap[0] && (gap + t)[1..] == gap[1..] + t;
      ScanGap1(gap[1..], t);
    }
  }

  lemma {:induction false} ScanGap2(gap: string, t: string)
    requires Spaces(gap) && t != "" && !IsSpace(t[0])
    ensures Scan(Gap2More, gap + t, "") == Scan(Gap2More, t, "")
    decreases |gap|
  {
    if gap == "" {
      assert gap + t == t;
    } else {
      assert (gap + t)[0] == gap[0] && (gap + t)[1..] == gap[1..] + t;
      ScanGap2(gap[1..], t);
    }
  }

  lemma FirstGap(gap1: string, letter: char, t: string)
    requires Spaces(gap1) && gap1 != "" && 'A' <= letter <= 'E'
    ensures Scan(Gap1, gap1 + ([letter] + t), "") == Scan(Point, t, "")
  {
    var s, u := gap1 + ([letter] + t), [letter] + t;
    assert s[0] == gap1[0] && s[1..] == gap1[1..] + u;
    ScanGap1(gap1[1..], u);
    assert u[1..] == t;
  }

  lemma SecondGap(gap2: string, t: string)
    requires Spaces(gap2) && gap2 != ""
    ensures Scan(Point, "." + (gap2 + ("`" + t)), "") == Scan(Name, t, "")
  {
    var v, u := gap2 + ("`" + t), "`" + t;
    assert ("." + v)[0] == '.' && ("." + v)[1..] == v;
    assert v[0] == gap2[0] && v[1..] == gap2[1..] + u;
    ScanGap2(gap2[1..], u);
    assert u[0] == '`' && u[1..] == t;
  }

  lemma HeadingComplete(s: string, gap1: string, letter: char, gap2: string, id: string, rest: string)
    requires HeadingParts(s, gap1, letter, gap2, id, rest)
    ensures MatchHeading(s) == Some(Heading(id, rest))
  {
    var name := id + "`" + rest;
    var point := "." + (gap2 + ("`" + name));
    ScanWholeName(id, rest);
    SecondGap(gap2, name);
    FirstGap(gap1, letter, point);
    ScanHashes(gap1 + ([letter] + point));
    HeadingNested(gap1, letter, gap2, id, rest);
  }

  lemma HeadingNested(gap1: string, letter: char, gap2: string, id: string, rest: string)
    ensures "###" + gap1 + [letter] + "." + gap2 + "`" + id + "`" + rest
         == ['#', '#', '#'] + (gap1 + ([letter] + ("." + (gap2 + ("`" + (id + "`" + rest))))))
  {
  }

  lemma {:induction false} NameRead(s: string, read: string) returns (more: string)
    requires Scan(NameMore, s, read).Some?
    ensures var h := Scan(NameMore, s, read).value;
            (forall i | 0 <= i < |more| :: IsIdChar(more[i])) && h.id == read + more && s == more + "`" + h.rest
    decreases |s|
  {
    if s[0] == '`' {
      more := "";
      assert s == "`" + s[1..];
    } else {
      var rest := NameRead(s[1..], read + [s[0]]);
      more := [s[0]] + rest;
      assert s == [s[0]] + s[1..];
      Associative(read, [s[0]], rest);
    }
  }

  lemma {:induction false} Gap2Read(s: string) returns (gap: string, t: string)
    requires Scan(Gap2More, s, "").Some?
    ensures Spaces(gap) && s == gap + "`" + t && Scan(Gap2More, s, "") == Scan(Name, t, "")
    decreases |s|
  {
    if s[0] == '`' {
      gap, t := "", s[1..];
      assert s == "`" + t;
    } else {
      gap, t := Gap2Read(s[1..]);
      gap := [s[0]] + gap;
      assert s == [s[0]] + s[1..];
    }
  }

  lemma {:induction false} Gap1Read(s: string) returns (gap: string, letter: char, t: string)
    requires Scan(Gap1More, s, "").Some?
    ensures Spaces(gap) && 'A' <= letter <= 'E' && s == gap + [letter] + t && Scan(Gap1More, s, "") == Scan(Point, t, "")
    decreases |s|
  {
    if IsSpace(s[0]) {
      gap, letter, t := Gap1Read(s[1..]);
      gap := [s[0]] + gap;
      assert s == [s[0]] + s[1..];
    } else {
      gap, letter, t := "", s[0], s[1..];
      assert s == [letter] + t;
    }
  }

  lemma PointRead(s: string) returns (gap: string, id: string)
    requires Scan(Point, s, "").Some?
    ensures var h := Scan(Point, s, "").value;
            Spaces(gap) && gap != "" && IsId(id) && h.id == id && s == "." + gap + "`" + id + "`" + h.rest
  {
    var s1 := s[1..];
    assert Scan(Point, s, "") == Scan(Gap2, s1, "");
    var s2 := s1[1..];
    assert Scan(Gap2, s1, "") == Scan(Gap2More, s2, "");
    var g, t := Gap2Read(s2);
    gap := [s1[0]] + g;
    id := NameWhole(t);
    PointText(s, s1, s2, g, t, id, Scan(Name, t, "").value.rest);
  }

  lemma NameWhole(t: string) returns (id: string)
    requires Scan(Name, t, "").Some?
    ensures var h := Scan(Name, t, "").value; IsId(id) && h.id == id && t == id + "`" + h.rest
  {
    var more := NameRead(t[1..], "" + [t[0]]);
    id := [t[0]] + more;
    assert t == [t[0]] + t[1..];
  }

  lemma PointText(s: string, s1: string, s2: string, g: string, t: string, id: string, rest: string)
    requires s != "" && s[0] == '.' && s1 == s[1..] && s1 != "" && s2 == s1[1..]
    requires s2 == g + "`" + t && t == id + "`" + rest
    ensures s == "." + ([s1[0]] + g) + "`" + id + "`" + rest
  {
    assert s == ['.'] + s1 && s1 == [s1[0]] + s2;
  }

  lemma HeadingSound(s: string) returns (gap1: string, letter: char, gap2: string)
    requires MatchHeading(s).Some?
    ensures HeadingParts(s, gap1, letter, gap2, MatchHeading(s).value.id, MatchHeading(s).value.rest)
  {
    NeedsHashes(s);
    var s3 := s[3..];
    assert s == ['#', '#', '#'] + s3;
    ScanHashes(s3);
    gap1, letter, gap2 := AfterHashes(s3);
    var h := MatchHeading(s).value;
    HeadingJoined(s, s3, gap1, letter, gap2, h.id, h.rest);
  }

  ghost predicate GapsAndName(s: string, gap1: string, letter: char, gap2: string, id: string, rest: string) {
    && Spaces(gap1) && gap1 != "" && 'A' <= letter <= 'E' && Spaces(gap2) && gap2 != "" && IsId(id)
    && s == gap1 + [letter] + ("." + gap2 + "`" + id + "`" + rest)
  }

  lemma AfterHashes(s: string) returns (gap1: string, letter: char, gap2: string)
    requires Scan(Gap1, s, "").Some?
    ensures GapsAndName(s, gap1, letter, gap2, Scan(Gap1, s, "").value.id, Scan(Gap1, s, "").value.rest)
  {
    var rest := s[1..];
    assert Scan(Gap1, s, "") == Scan(Gap1More, rest, "");
    var g, t, id;
    g, letter, t := Gap1Read(rest);
    gap1 := [s[0]] + g;
    gap2, id := PointRead(t);
    assert s == [s[0]] + rest;
    GapText(s, s[0], rest, g, letter, t);
  }

  lemma GapText(s: string, c: char, rest: string, g: string, letter: char, t: string)
    requires s == [c] + rest && rest == g + [letter] + t
    ensures s == ([c] + g) + [letter] + t
  {
  }

  lemma HeadingJoined(s: string, s3: string, gap1: string, letter: char, gap2: string, id: string, rest: string)
    requires s == ['#', '#', '#'] + s3 && GapsAndName(s3, gap1, letter, gap2, id, rest)
    ensures HeadingParts(s, gap1, letter, gap2, id, rest)
  {
    assert ['#', '#', '#'] == "###";
    HeadingText(s, gap1, letter, "." + gap2 + "`" + id + "`" + rest, gap2, id, rest);
  }

  lemma HeadingText(s: string, gap1: string, letter: char, t: string, gap2: string, id: string, rest: string)
    requires s == "###" + (gap1 + [letter] + t) && t == "." + gap2 + "`" + id + "`" + rest
    ensures s == "###" + gap1 + [letter] + "." + gap2 + "`" + id + "`" + rest
  {
  }

  /** A heading is matched if and only if the text begins with one, and then its id and what
      follows it are the only ones possible. */
  lemma HeadingExactly(s: string, id: string, rest: string)
    ensures MatchHeading(s) == Some(Heading(id, rest)) <==>
            exists gap1, letter, gap2 :: HeadingParts(s, gap1, letter, gap2, id, rest)
  {
    if MatchHeading(s) == Some(Heading(id, rest)) {
      var gap1, letter, gap2 := HeadingSound(s);
    }
    if gap1, letter, gap2 :| HeadingParts(s, gap1, letter, gap2, id, rest) {
      HeadingComplete(s, gap1, letter, gap2, id, rest);
    }
  }

  // ---------------------------------------------------------------- marks

  /** `name\s*=\s*([0-9]+|_)`, digits taken as far as they go. */
  ghost predicate MarkParts(s: string, name: string, sp1: string, sp2: string, v: string, rest: string) {
    && Spaces(sp1) && Spaces(sp2)
    && (v == "_" || (v != "" && (forall i | 0 <= i < |v| :: '0' <= v[i] <= '9') && (rest == "" || !('0' <= rest[0] <= '9'))))
    && s == name + sp1 + "=" + sp2 + v + rest
  }

  lemma ValueComplete(v: string, rest: string)
    requires IsEntry(v) && (v != "_" ==> rest == "" || !IsDigit(rest[0]))
    ensures ReadValue(v + rest) == Some(v)
  {
    if v == "_" {
      assert (v + rest)[0] == '_';
    } else {
      SpanExact(IsDigit, v, rest);
      assert (v + rest)[..|v|] == v;
    }
  }

  lemma ValueSound(s: string) returns (rest: string)
    requires ReadValue(s).Some?
    ensures var v := ReadValue(s).value;
            IsEntry(v) && s == v + rest && (v != "_" ==> rest == "" || !IsDigit(rest[0]))
  {
    var n := Span(IsDigit, s);
    SpanStops(IsDigit, s);
    rest := if n > 0 then s[n..] else s[1..];
  }

  lemma MarkComplete(s: string, name: string, sp1: string, sp2: string, v: string, rest: string)
    requires MarkParts(s, name, sp1, sp2, v, rest)
    ensures MatchMark(s, name) == Some(v)
  {
    var value := sp2 + (v + rest);
    var after := sp1 + ("=" + value);
    assert s == name + after;
    assert s[..|name|] == name && s[|name|..] == after;
    SkipSpaces(sp1, "=" + value);
    assert ("=" + value)[1..] == value;
    assert (v + rest)[0] == v[0];
    SkipSpaces(sp2, v + rest);
    ValueComplete(v, rest);
  }

  lemma AfterName(after: string) returns (sp1: string, s1: string, sp2: string, rest: string)
    requires SkipSpace(after) != "" && SkipSpace(after)[0] == '='
    requires ReadValue(SkipSpace(SkipSpace(after)[1..])).Some?
    ensures var v := ReadValue(SkipSpace(SkipSpace(after)[1..])).value;
            && Spaces(sp1) && Spaces(sp2) && IsEntry(v) && (v != "_" ==> rest == "" || !IsDigit(rest[0]))
            && after == sp1 + s1 && s1 == "=" + (sp2 + (v + rest))
  {
    sp1 := SpacesSkipped(after);
    s1 := SkipSpace(after);
    sp2 := SpacesSkipped(s1[1..]);
    rest := ValueSound(SkipSpace(s1[1..]));
    assert s1 == "=" + s1[1..];
  }

  lemma MarkSound(s: string, name: string) returns (sp1: string, sp2: string, rest: string)
    requires MatchMark(s, name).Some?
    ensures MarkParts(s, name, sp1, sp2, MatchMark(s, name).value, rest)
  {
    var after := s[|name|..];
    var s1;
    sp1, s1, sp2, rest := AfterName(after);
    assert s == name + after;
    MarkText(s, name, after, sp1, s1, sp2, MatchMark(s, name).value, rest);
  }

  lemma MarkText(s: string, name: string, after: string, sp1: string, s1: string, sp2: string, v: string, rest: string)
    requires s == name + after && after == sp1 + s1 && s1 == "=" + (sp2 + (v + rest))
    ensures s == name + sp1 + "=" + sp2 + v + rest
  {
  }

  lemma MarkExactly(s: string, name: string, v: string)
    ensures MatchMark(s, name) == Some(v) <==> exists sp1, sp2, rest :: MarkParts(s, name, sp1, sp2, v, rest)
  {
    if MatchMark(s, name) == Some(v) {
      var sp1, sp2, rest := MarkSound(s, name);
    }
    if sp1, sp2, rest :| MarkParts(s, name, sp1, sp2, v, rest) {
      MarkComplete(s, name, sp1, sp2, v, rest);
    }
  }

  /** A word boundary before a name: no word character stands there. */
  predicate Boundary(s: string, p: nat, inWord: bool)
    requires p <= |s|
  {
    if p == 0 then !inWord
    else
      var c := s[p - 1];
      !('a' <= c <= 'z' || 'A' <= c <= 'Z' || '0' <= c <= '9' || c == '_')
  }

  ghost predicate MarkAt(s: string, p: int, inWord: bool, name: string)
    requires 0 <= p <= |s|
  {
    Boundary(s, p, inWord) && MatchMark(s[p..], name).Some?
  }

  ghost predicate NoMarkBefore(s: string, p: int, inWord: bool, name: string)
    requires 0 <= p <= |s| + 1
  {
    forall q | 0 <= q < p :: !MarkAt(s, q, inWord, name)
  }

  lemma MarkAtNext(s: string, p: nat, inWord: bool, name: string)
    requires s != "" && p <= |s| - 1
    ensures MarkAt(s, p + 1, inWord, name) <==> MarkAt(s[1..], p, IsWord(s[0]), name)
    ensures s[1..][p..] == s[p + 1..]
  {
    assert s[1..][p..] == s[p + 1..];
    assert p > 0 ==> s[1..][p - 1] == s[p];
  }

  lemma NoMarkCons(s: string, p: nat, inWord: bool, name: string)
    requires s != "" && p <= |s| && !MarkAt(s, 0, inWord, name) && NoMarkBefore(s[1..], p, IsWord(s[0]), name)
    ensures NoMarkBefore(s, p + 1, inWord, name)
  {
    forall q | 0 <= q < p + 1 ensures !MarkAt(s, q, inWord, name) {
      if q > 0 {
        MarkAtNext(s, q - 1, inWord, name);
        assert !MarkAt(s[1..], q - 1, IsWord(s[0]), name);
      }
    }
  }

  /** The search gives what stands at the first place where a mark does, `p`; it gives nothing
      exactly when a mark stands nowhere. */
  lemma {:induction false} FindMarkExactly(s: string, inWord: bool, name: string) returns (p: int)
    ensures FindMark(s, inWord, name) == None ==> NoMarkBefore(s, |s| + 1, inWord, name)
    ensures FindMark(s, inWord, name).Some? ==>
              && 0 <= p <= |s| && MarkAt(s, p, inWord, name) && MatchMark(s[p..], name) == FindMark(s, inWord, name)
              && NoMarkBefore(s, p, inWord, name)
    decreases |s|
  {
    p := 0;
    assert s[0..] == s;
    if inWord || MatchMark(s, name).None? {
      assert !MarkAt(s, 0, inWord, name);
      if s != "" {
        var found := FindMark(s[1..], IsWord(s[0]), name);
        p := FindMarkExactly(s[1..], IsWord(s[0]), name);
        if found.Some? {
          MarkAtNext(s, p, inWord, name);
          NoMarkCons(s, p, inWord, name);
          p := p + 1;
        } else {
          NoMarkCons(s, |s|, inWord, name);
        }
      }
    }
  }

  // ---------------------------------------------------------------- the digest comment

  /** `<!--\s*digest:\s*(sha256:[0-9a-f]+)\s*-->` and what follows. */
  ghost predicate DigestParts(s: string, sp1: string, sp2: string, d: string, sp3: string, rest: string) {
    && Spaces(sp1) && Spaces(sp2) && Spaces(sp3)
    && |d| > 7 && d[..7] == "sha256:" && (forall i | 7 <= i < |d| :: '0' <= d[i] <= '9' || 'a' <= d[i] <= 'f')
    && s == "<!--" + sp1 + "digest:" + sp2 + d + sp3 + "-->" + rest
  }

  /** The comment stands at position `p` of the text, with the digest `d`. */
  ghost predicate CommentAt(text: string, p: int, d: string) {
    0 <= p <= |text| && exists sp1, sp2, sp3, rest :: DigestParts(text[p..], sp1, sp2, d, sp3, rest)
  }

  lemma KeywordComplete(keyword: string, sp: string, t: string)
    requires Spaces(sp) && t != "" && !IsSpace(t[0])
    ensures After(keyword, keyword + (sp + t)) == Some(t)
  {
    var s := keyword + (sp + t);
    assert s[..|keyword|] == keyword && s[|keyword|..] == sp + t;
    SkipSpaces(sp, t);
  }

  lemma KeywordSound(keyword: string, s: string) returns (sp: string)
    requires After(keyword, s).Some?
    ensures Spaces(sp) && s == keyword + (sp + After(keyword, s).value)
  {
    sp := SpacesSkipped(s[|keyword|..]);
    assert s == keyword + s[|keyword|..];
  }

  lemma HexComplete(d: string, sp: string, rest: string)
    requires IsDigest(d) && Spaces(sp)
    ensures ReadDigest(d + (sp + ("-->" + rest))) == Some(d)
  {
    var tail := sp + ("-->" + rest);
    var s := d + tail;
    assert tail[0] == if sp == "" then '-' else sp[0];
    assert s[..7] == d[..7] == "sha256:" && s[7..] == d[7..] + tail;
    SpanExact(IsHex, d[7..], tail);
    assert s[|d|..] == tail && s[..|d|] == d;
    SkipSpaces(sp, "-->" + rest);
  }

  lemma HexSound(s: string) returns (sp: string, rest: string)
    requires ReadDigest(s).Some?
    ensures var d := ReadDigest(s).value; IsDigest(d) && Spaces(sp) && s == d + (sp + ("-->" + rest))
  {
    var n := Span(IsHex, s[7..]);
    var d, after := s[..7 + n], s[7 + n..];
    assert d == ReadDigest(s).value;
    DigestTaken(s, n);
    sp, rest := ArrowAfter(after);
    assert s == d + after;
  }

  lemma ArrowAfter(s: string) returns (sp: string, rest: string)
    requires "-->" <= SkipSpace(s)
    ensures Spaces(sp) && s == sp + ("-->" + rest)
  {
    sp := SpacesSkipped(s);
    rest := SkipSpace(s)[3..];
    assert SkipSpace(s) == "-->" + rest;
  }

  lemma DigestTaken(s: string, n: nat)
    requires "sha256:" <= s && n == Span(IsHex, s[7..]) > 0
    ensures IsDigest(s[..7 + n])
  {
    SpanStops(IsHex, s[7..]);
    var d := s[..7 + n];
    assert d[..7] == s[..7] == "sha256:";
    assert forall i | 7 <= i < |d| :: d[i] == s[7..][i - 7];
  }

  lemma DigestComplete(s: string, sp1: string, sp2: string, d: string, sp3: string, rest: string)
    requires DigestParts(s, sp1, sp2, d, sp3, rest)
    ensures MatchDigest(s) == Some(d)
  {
    var s2 := d + (sp3 + ("-->" + rest));
    var s1 := "digest:" + (sp2 + s2);
    HexComplete(d, sp3, rest);
    DigestBegins(d, sp3 + ("-->" + rest));
    KeywordComplete("digest:", sp2, s2);
    KeywordComplete("<!--", sp1, s1);
    DigestNested(sp1, sp2, d, sp3, rest);
  }

  lemma DigestBegins(d: string, tail: string)
    requires IsDigest(d)
    ensures (d + tail)[0] == 's'
  {
    assert d[0] == "sha256:"[0];
  }

  lemma DigestNested(sp1: string, sp2: string, d: string, sp3: string, rest: string)
    ensures "<!--" + sp1 + "digest:" + sp2 + d + sp3 + "-->" + rest
         == "<!--" + (sp1 + ("digest:" + (sp2 + (d + (sp3 + ("-->" + rest))))))
  {
  }

  lemma DigestSound(s: string) returns (sp1: string, sp2: string, sp3: string, rest: string)
    requires MatchDigest(s).Some?
    ensures DigestParts(s, sp1, sp2, MatchDigest(s).value, sp3, rest)
  {
    sp1 := KeywordSound("<!--", s);
    var s1 := After("<!--", s).value;
    sp2 := KeywordSound("digest:", s1);
    var s2 := After("digest:", s1).value;
    sp3, rest := HexSound(s2);
    DigestText(s, sp1, s1, sp2, s2, MatchDigest(s).value, sp3, rest);
  }

  lemma DigestText(s: string, sp1: string, s1: string, sp2: string, s2: string, d: string, sp3: string, rest: string)
    requires s == "<!--" + (sp1 + s1) && s1 == "digest:" + (sp2 + s2) && s2 == d + (sp3 + ("-->" + rest))
    ensures s == "<!--" + sp1 + "digest:" + sp2 + d + sp3 + "-->" + rest
  {
  }

  lemma CommentExactly(text: string, p: nat, d: string)
    requires p <= |text|
    ensures CommentAt(text, p, d) <==> MatchDigest(text[p..]) == Some(d)
  {
    var s := text[p..];
    if sp1, sp2, sp3, rest :| DigestParts(s, sp1, sp2, d, sp3, rest) {
      DigestComplete(s, sp1, sp2, d, sp3, rest);
    }
    if MatchDigest(s) == Some(d) {
      var sp1, sp2, sp3, rest := DigestSound(s);
    }
  }

  /** The first digest comment of a text. */
  ghost predicate FirstComment(text: string, d: string) {
    exists p :: CommentAt(text, p, d) && forall q, other | 0 <= q < p :: !CommentAt(text, q, other)
  }

  lemma {:induction false} FirstMatch(text: string)
    ensures FindDigest(text) == None <==> forall p | 0 <= p <= |text| :: MatchDigest(text[p..]).None?
    ensures FindDigest(text).Some? ==>
              exists p | 0 <= p <= |text| ::
                MatchDigest(text[p..]) == FindDigest(text) && forall q | 0 <= q < p :: MatchDigest(text[q..]).None?
    decreases |text|
  {
    assert text[0..] == text;
    if MatchDigest(text).None? && text != "" {
      var t := text[1..];
      FirstMatch(t);
      forall p | 0 <= p <= |t| ensures t[p..] == text[p + 1..] {
      }
      if FindDigest(t).Some? {
        var p :| 0 <= p <= |t| && MatchDigest(t[p..]) == FindDigest(t) && forall q | 0 <= q < p :: MatchDigest(t[q..]).None?;
        assert text[p + 1..] == t[p..];
        forall q | 0 <= q < p + 1 ensures MatchDigest(text[q..]).None? {
          if q > 0 {
            assert text[q..] == t[q - 1..];
          }
        }
      } else {
        forall p | 0 <= p <= |text| ensures MatchDigest(text[p..]).None? {
          if p > 0 {
            assert text[p..] == t[p - 1..];
          }
        }
      }
    }
  }

  /** The search gives the first comment's digest, and nothing exactly when there is no comment. */
  lemma FindDigestExactly(text: string)
    ensures FindDigest(text) == None <==> forall p, d :: !CommentAt(text, p, d)
    ensures FindDigest(text).Some? ==> FirstComment(text, FindDigest(text).value)
  {
    FirstMatch(text);
    forall p: nat, d | p <= |text| ensures CommentAt(text, p, d) <==> MatchDigest(text[p..]) == Some(d) {
      CommentExactly(text, p, d);
    }
    if FindDigest(text).Some? {
      var p :| 0 <= p <= |text| && MatchDigest(text[p..]) == FindDigest(text) && forall q | 0 <= q < p :: MatchDigest(text[q..]).None?;
      assert CommentAt(text, p, FindDigest(text).value);
    } else {
      forall p, d ensures !CommentAt(text, p, d) {
        if 0 <= p <= |text| {
          CommentExactly(text, p, d);
        }
      }
    }
  }

  lemma FirstCommentIsOne(text: string, d: string, other: string)
    requires FirstComment(text, d) && FirstComment(text, other)
    ensures d == other
  {
    var p :| CommentAt(text, p, d) && forall q, x | 0 <= q < p :: !CommentAt(text, q, x);
    var r :| CommentAt(text, r, other) && forall q, x | 0 <= q < r :: !CommentAt(text, q, x);
    assert p == r;
    CommentExactly(text, p, d);
    CommentExactly(text, p, other);
  }
}
