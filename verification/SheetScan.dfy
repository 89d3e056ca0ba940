/** Scanning the review sheet: section headings and the digest comment.

    The regular expressions are matched deterministically: in each, the characters a repeated
    class accepts and the character that must follow it are disjoint, so greedy matching never
    backtracks. */
module SheetScan {
  import opened Prelude

  // ---------------------------------------------------------------- character classes

  /** What `\s` matches and `strip` removes. */
  predicate IsSpace(c: char) {
    || c == ' ' || '\t' <= c <= '\r' || '\U{1C}' <= c <= '\U{1F}' || c == '\U{85}' || c == '\U{A0}' || c == '\U{1680}'
    || '\U{2000}' <= c <= '\U{200A}' || c == '\U{2028}' || c == '\U{2029}' || c == '\U{202F}' || c == '\U{205F}'
    || c == '\U{3000}'
  }

  predicate IsDigit(c: char) {
    '0' <= c <= '9'
  }

  predicate IsLower(c: char) {
    'a' <= c <= 'z'
  }

  /** [a-z0-9] */
  predicate IsIdChar(c: char) {
    IsLower(c) || IsDigit(c)
  }

  /** [0-9a-f] */
  predicate IsHex(c: char) {
    IsDigit(c) || 'a' <= c <= 'f'
  }

  // ---------------------------------------------------------------- section headings

  /** Where a match of `###\s+[A-E]\.\s+`([a-z0-9]+)`` stands after some characters. */
  datatype State = Hash(seen: nat) | Gap1 | Gap1More | Point | Gap2 | Gap2More | Name | NameMore

  datatype Heading = Heading(id: string, rest: string)

  /** Continue a match from state `q`, having read `id` so far. */
  function Scan(q: State, s: string, id: string): Option<Heading>
    decreases |s|
  {
    if s == "" then None
    else
      var c, t := s[0], s[1..];
      match q
      case Hash(seen) => if c != '#' then None else if seen >= 2 then Scan(Gap1, t, id) else Scan(Hash(seen + 1), t, id)
      case Gap1 => if IsSpace(c) then Scan(Gap1More, t, id) else None
      case Gap1More =>
        if IsSpace(c) then Scan(Gap1More, t, id) else if 'A' <= c <= 'E' then Scan(Point, t, id) else None
      case Point => if c == '.' then Scan(Gap2, t, id) else None
      case Gap2 => if IsSpace(c) then Scan(Gap2More, t, id) else None
      case Gap2More => if IsSpace(c) then Scan(Gap2More, t, id) else if c == '`' then Scan(Name, t, id) else None
      case Name => if IsIdChar(c) then Scan(NameMore, t, id + [c]) else None
      case NameMore =>
        if IsIdChar(c) then Scan(NameMore, t, id + [c]) else if c == '`' then Some(Heading(id, t)) else None
  }

  function MatchHeading(s: string): (h: Option<Heading>)
    ensures h.Some? ==> |h.value.rest| < |s|
  {
    ScanConsumes(Hash(0), s, "");
    Scan(Hash(0), s, "")
  }

  lemma {:induction false} ScanConsumes(q: State, s: string, id: string)
    ensures Scan(q, s, id).Some? ==> |Scan(q, s, id).value.rest| < |s|
    decreases |s|
  {
    if s != "" {
      var c, t := s[0], s[1..];
      forall q': State, id': string ensures Scan(q', t, id').Some? ==> |Scan(q', t, id').value.rest| < |t| {
        ScanConsumes(q', t, id');
      }
    }
  }

  // ---------------------------------------------------------------- sections

  datatype Section = Section(id: string, body: string)

  /** The text before the first heading, and each heading's id with the text up to the next. */
  datatype Parsed = Parsed(preamble: string, sections: seq<Section>)

  /** Left to right, without overlap; a heading starts at the beginning of a line only. */
  function Split(s: string, lineStart: bool): Parsed
    decreases |s|
  {
    if s == "" then Parsed("", [])
    else if lineStart && MatchHeading(s).Some? then
      var h := MatchHeading(s).value;
      var after := Split(h.rest, false);
      Parsed("", [Section(h.id, after.preamble)] + after.sections)
    else
      var after := Split(s[1..], s[0] == '\n');
      Parsed([s[0]] + after.preamble, after.sections)
  }

  // ---------------------------------------------------------------- the digest comment

  function Span(p: char -> bool, s: string): (n: nat)
    ensures n <= |s|
  {
    if s == "" || !p(s[0]) then 0 else 1 + Span(p, s[1..])
  }

  function SkipSpace(s: string): (rest: string)
    ensures |rest| <= |s|
  {
    if s == "" || !IsSpace(s[0]) then s else SkipSpace(s[1..])
  }

  lemma {:induction false} SpanStops(p: char -> bool, s: string)
    ensures forall i | 0 <= i < Span(p, s) :: p(s[i])
    ensures Span(p, s) < |s| ==> !p(s[Span(p, s)])
  {
    if s != "" && p(s[0]) {
      SpanStops(p, s[1..]);
      assert forall i | 1 <= i < |s| :: s[i] == s[1..][i - 1];
    }
  }

  /** `keyword` and any spaces after it, or None. */
  function After(keyword: string, s: string): Option<string> {
    if keyword <= s then Some(SkipSpace(s[|keyword|..])) else None
  }

  /** `(sha256:[0-9a-f]+)\s*-->` at the start of `s`. */
  function ReadDigest(s: string): Option<string> {
    if !("sha256:" <= s) then None
    else
      var n := Span(IsHex, s[7..]);
      if n > 0 && "-->" <= SkipSpace(s[7 + n..]) then Some(s[..7 + n]) else None
  }

  /** `<!--\s*digest:\s*(sha256:[0-9a-f]+)\s*-->` at the start of `s`. */
  function MatchDigest(s: string): Option<string> {
    match After("<!--", s)
    case None => None
    case Some(s1) =>
      match After("digest:", s1)
      case None => None
      case Some(s2) => ReadDigest(s2)
  }

  /** The leftmost match. */
  function FindDigest(s: string): Option<string> {
    if MatchDigest(s).Some? then MatchDigest(s)
    else if s == "" then None
    else FindDigest(s[1..])
  }

  predicate IsDigest(d: string) {
    |d| > 7 && "sha256:" <= d && forall i | 7 <= i < |d| :: IsHex(d[i])
  }

  function DigestComment(d: string): string {
    "<!-- digest: " + d + " -->"
  }

  lemma SkipNothing(s: string)
    requires s == "" || !IsSpace(s[0])
    ensures SkipSpace(s) == s
  {
  }

  lemma SkipOne(s: string)
    requires s == "" || !IsSpace(s[0])
    ensures SkipSpace(" " + s) == s
  {
    assert (" " + s)[1..] == s;
    assert Span(IsSpace, " " + s) == 1 + Span(IsSpace, s);
  }

  lemma {:induction false} SpanExact(p: char -> bool, u: string, v: string)
    requires forall i | 0 <= i < |u| :: p(u[i])
    requires v == "" || !p(v[0])
    ensures Span(p, u + v) == |u|
    decreases |u|
  {
    if u == "" {
      assert u + v == v;
    } else {
      assert (u + v)[1..] == u[1..] + v;
      SpanExact(p, u[1..], v);
    }
  }

  lemma AfterKeyword(keyword: string, s: string)
    requires s == "" || !IsSpace(s[0])
    ensures After(keyword, keyword + " " + s) == Some(s)
  {
    var all := keyword + " " + s;
    assert all[..|keyword|] == keyword;
    assert all[|keyword|..] == " " + s;
    SkipOne(s);
  }

  lemma DigestReads(d: string, v: string)
    requires IsDigest(d)
    ensures ReadDigest(d + " " + ("-->" + v)) == Some(d)
  {
    var tail := " " + ("-->" + v);
    var s := d + " " + ("-->" + v);
    assert s == d + tail;
    assert s[7..] == d[7..] + tail;
    SpanExact(IsHex, d[7..], tail);
    assert s[|d|..] == tail && s[..|d|] == d;
    SkipOne("-->" + v);
  }

  lemma DigestMatches(d: string, v: string)
    requires IsDigest(d)
    ensures MatchDigest(DigestComment(d) + v) == Some(d)
  {
    var s2 := d + " " + ("-->" + v);
    var s1 := "digest:" + " " + s2;
    assert DigestComment(d) + v == "<!--" + " " + s1;
    AfterKeyword("<!--", s1);
    AfterKeyword("digest:", s2);
    DigestReads(d, v);
  }

  /** Text without a `<` cannot start, or hide, the comment. */
  lemma {:induction false} DigestFound(before: string, d: string, v: string)
    requires '<' !in before && IsDigest(d)
    ensures FindDigest(before + DigestComment(d) + v) == Some(d)
    decreases |before|
  {
    if before == "" {
      assert before + DigestComment(d) + v == DigestComment(d) + v;
      DigestMatches(d, v);
    } else {
      var s := before + DigestComment(d) + v;
      assert s[0] == before[0] && s[0] != '<';
      assert s[1..] == before[1..] + DigestComment(d) + v;
      DigestFound(before[1..], d, v);
    }
  }
}
