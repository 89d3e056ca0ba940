/** Printing the marking sheet. */
module ReviewSheet {
  import opened Prelude
  import opened SheetScan
  import opened SheetSections
  import opened SheetMarks
  import Sequences

  const DIMENSIONS: seq<string> := ["technical", "relevance", "completeness", "communication", "structure"]

  const LETTERS: string := "ABCDE"

  datatype Question = Question(id: string, role: string, topic: string, difficulty: string, text: string, points: seq<string>)

  datatype Answer = Answer(id: string, questionId: string, profile: string, text: string)

  /** What the sheet is made from. The header's prose is the lines around the digest comment;
      `shuffle` gives the seeded shuffle of the n answers of question i, a permutation that
      depends on nothing else. */
  datatype Source = Source(
    before: seq<string>,
    after: seq<string>,
    digest: string,
    questions: seq<Question>,
    answers: seq<Answer>,
    shuffle: (nat, nat) -> seq<nat>)

  /** What a marker has typed in place of the blanks, for some of the ids. */
  type Typed = map<string, seq<string>>

  function Blanks(): (entries: seq<string>)
    ensures |entries| == |DIMENSIONS| && forall i | 0 <= i < |entries| :: entries[i] == "_"
  {
    seq(|DIMENSIONS|, _ => "_")
  }

  predicate ValidTyped(typed: Typed) {
    forall id | id in typed :: |typed[id]| == |DIMENSIONS| && forall i | 0 <= i < |DIMENSIONS| :: IsTyped(typed[id][i])
  }

  function EntriesFor(typed: Typed, id: string): (entries: seq<string>)
    requires ValidTyped(typed)
    ensures |entries| == |DIMENSIONS| && forall i | 0 <= i < |entries| :: IsTyped(entries[i])
  {
    if id in typed then typed[id] else Blanks()
  }

  function ScoreLine(typed: Typed, id: string): string
    requires ValidTyped(typed)
  {
    ScoresText(DIMENSIONS, EntriesFor(typed, id))
  }

  // ---------------------------------------------------------------- the pieces

  function Join(parts: seq<string>, separator: string): string {
    if parts == [] then ""
    else if |parts| == 1 then parts[0]
    else parts[0] + separator + Join(parts[1..], separator)
  }

  function Decimal(n: nat): string {
    (if n < 10 then "" else Decimal(n / 10)) + [(n % 10) as char + '0']
  }

  function Header(s: Source): string {
    Unlines(s.before) + DigestComment(s.digest) + "\n" + Unlines(s.after)
  }

  function Article(role: string): string
    requires role != ""
  {
    if role[0] in "AEIOU" then "an" else "a"
  }

  function Bullets(points: seq<string>): (lines: seq<string>)
    ensures |lines| == |points| && forall i | 0 <= i < |points| :: lines[i] == "  - " + points[i]
  {
    seq(|points|, i requires 0 <= i < |points| => "  - " + points[i])
  }

  function Title(number: nat, total: nat, q: Question): string {
    "## Question " + Decimal(number) + " of " + Decimal(total) + " -- " + q.topic + " (" + q.difficulty + ")"
  }

  function AskedFor(q: Question): string
    requires q.role != ""
  {
    "*Asked for " + Article(q.role) + " " + q.role + " role.*"
  }

  function QuestionBlock(number: nat, total: nat, q: Question): string
    requires q.role != ""
  {
    Title(number, total, q) + "\n\n" + AskedFor(q) + "\n\n" + ("> " + q.text) + "\n\n"
      + "**A strong answer covers:**\n" + Join(Bullets(q.points), "\n") + "\n"
  }

  function AnswerBlock(letter: char, a: Answer, scores: string): string {
    "### " + [letter] + ". `" + a.id + "`\n\n" + a.text + "\n\n```\n" + scores + "\n```\n"
  }

  function Group(answers: seq<Answer>, questionId: string): seq<Answer> {
    if answers == [] then []
    else
      var init := Group(answers[..|answers| - 1], questionId);
      if answers[|answers| - 1].questionId == questionId then init + [answers[|answers| - 1]] else init
  }

  /** The shuffle permutes every group it is given. */
  ghost predicate Shuffles(s: Source) {
    forall i: nat, n: nat :: Permutes(s.shuffle, i, n)
  }

  ghost predicate Permutes(shuffle: (nat, nat) -> seq<nat>, i: nat, n: nat) {
    Sequences.IsPermutation(shuffle(i, n), n)
  }

  /** The answers to question `i` in the order they are printed. */
  function Shuffled(s: Source, i: nat): (group: seq<Answer>)
    requires Shuffles(s) && i < |s.questions|
  {
    var group := Group(s.answers, s.questions[i].id);
    assert Permutes(s.shuffle, i, |group|);
    Sequences.Gather(group, s.shuffle(i, |group|))
  }

  /** One answer for each letter, and a role to name. */
  ghost predicate QuestionPrints(s: Source, i: nat)
    requires Shuffles(s) && i < |s.questions|
  {
    s.questions[i].role != "" && |Shuffled(s, i)| == |LETTERS|
  }

  /** Otherwise printing raises. */
  ghost predicate Printable(s: Source)
    requires Shuffles(s)
  {
    forall i | 0 <= i < |s.questions| :: QuestionPrints(s, i)
  }

  function AnswerParts(group: seq<Answer>, k: nat, typed: Typed): seq<string>
    requires |group| <= |LETTERS| && k <= |group| && ValidTyped(typed)
    decreases |group| - k
  {
    if k == |group| then []
    else [AnswerBlock(LETTERS[k], group[k], ScoreLine(typed, group[k].id))] + AnswerParts(group, k + 1, typed)
  }

  function QuestionParts(s: Source, i: nat, typed: Typed): seq<string>
    requires Shuffles(s) && Printable(s) && i < |s.questions| && ValidTyped(typed)
  {
    assert QuestionPrints(s, i);
    [QuestionBlock(i + 1, |s.questions|, s.questions[i])] + AnswerParts(Shuffled(s, i), 0, typed) + ["---\n"]
  }

  /** The parts of the first `n` questions. */
  function PartsUpTo(s: Source, n: nat, typed: Typed): seq<string>
    requires Shuffles(s) && Printable(s) && n <= |s.questions| && ValidTyped(typed)
  {
    if n == 0 then [] else PartsUpTo(s, n - 1, typed) + QuestionParts(s, n - 1, typed)
  }

  /** The sheet with the given entries typed in; with none, the sheet as printed. */
  function SheetText(s: Source, typed: Typed): string
    requires Shuffles(s) && Printable(s) && ValidTyped(typed)
  {
    Join([Header(s)] + PartsUpTo(s, |s.questions|, typed), "\n")
  }

  datatype PrintError = ValueError | IndexError

  method BuildSheet(s: Source) returns (r: Result<string, PrintError>)
    requires Shuffles(s)
    ensures r.Ok? <==> Printable(s)
    ensures r.Ok? ==> r.value == SheetText(s, map[])
  {
    var header := Header(s);
    var lines := [header];
    ghost var printed := [];
    var number := 0;
    while number < |s.questions|
      invariant 0 <= number <= |s.questions|
      invariant forall i | 0 <= i < number :: QuestionPrints(s, i)
      invariant lines == [header] + printed
      invariant Printable(s) ==> printed == PartsUpTo(s, number, map[])
    {
      var parts := BuildQuestion(s, number);
      if parts.Err? {
        return Err(parts.error);
      }
      lines := lines + parts.value;
      Associative([header], printed, parts.value);
      printed := printed + parts.value;
      number := number + 1;
    }
    r := Ok(Join(lines, "\n"));
  }

  /** One question: its block, an answer for each letter in the shuffled order, and a rule. */
  method BuildQuestion(s: Source, number: nat) returns (r: Result<seq<string>, PrintError>)
    requires Shuffles(s) && number < |s.questions|
    ensures r.Ok? <==> QuestionPrints(s, number)
    ensures r.Ok? && Printable(s) ==> r.value == QuestionParts(s, number, map[])
  {
    var question := s.questions[number];
    var forQuestion := Group(s.answers, question.id);
    assert Permutes(s.shuffle, number, |forQuestion|);
    forQuestion := Sequences.Gather(forQuestion, s.shuffle(number, |forQuestion|));
    if question.role == "" {
      return Err(IndexError);
    }
    var lines := [QuestionBlock(number + 1, |s.questions|, question)];
    if |forQuestion| != |LETTERS| {
      return Err(ValueError);
    }
    var blocks := BuildAnswers(forQuestion);
    lines := lines + blocks;
    lines := lines + ["---\n"];
    r := Ok(lines);
  }

  /** The inner loop: one block per letter, every mark blank. */
  method BuildAnswers(group: seq<Answer>) returns (blocks: seq<string>)
    requires |group| == |LETTERS|
    ensures blocks == AnswerParts(group, 0, map[])
  {
    blocks := [];
    for k := 0 to |group|
      invariant blocks + AnswerParts(group, k, map[]) == AnswerParts(group, 0, map[])
    {
      blocks := blocks + [AnswerBlock(LETTERS[k], group[k], ScoresText(DIMENSIONS, Blanks()))];
    }
  }

  // ---------------------------------------------------------------- the profile is not shown

  ghost predicate SameButProfile(a: seq<Answer>, b: seq<Answer>) {
    |a| == |b| && forall i | 0 <= i < |a| :: a[i] == b[i].(profile := a[i].profile)
  }

  lemma {:induction false} GroupIgnoresProfile(a: seq<Answer>, b: seq<Answer>, questionId: string)
    requires SameButProfile(a, b)
    ensures SameButProfile(Group(a, questionId), Group(b, questionId))
  {
    if a != [] {
      GroupIgnoresProfile(a[..|a| - 1], b[..|b| - 1], questionId);
    }
  }

  lemma {:induction false} AnswerPartsIgnoreProfile(a: seq<Answer>, b: seq<Answer>, k: nat, typed: Typed)
    requires SameButProfile(a, b) && |a| <= |LETTERS| && k <= |a| && ValidTyped(typed)
    ensures AnswerParts(a, k, typed) == AnswerParts(b, k, typed)
    decreases |a| - k
  {
    if k < |a| {
      AnswerPartsIgnoreProfile(a, b, k + 1, typed);
    }
  }

  lemma ShuffledIgnoresProfile(s: Source, t: Source, i: nat)
    requires Shuffles(s) && Shuffles(t) && i < |s.questions|
    requires t == s.(answers := t.answers) && SameButProfile(s.answers, t.answers)
    ensures SameButProfile(Shuffled(s, i), Shuffled(t, i))
  {
    GroupIgnoresProfile(s.answers, t.answers, s.questions[i].id);
    var n := |Group(s.answers, s.questions[i].id)|;
    assert Permutes(s.shuffle, i, n) && Sequences.IsPermutation(s.shuffle(i, n), n);
  }

  /** Relabelling every answer's profile prints the same sheet, character for character. */
  lemma SheetHidesProfiles(s: Source, t: Source, typed: Typed)
    requires Shuffles(s) && t == s.(answers := t.answers) && SameButProfile(s.answers, t.answers)
    requires Printable(s) && ValidTyped(typed)
    ensures Shuffles(t) && Printable(t) && SheetText(t, typed) == SheetText(s, typed)
  {
    forall i | 0 <= i < |t.questions| ensures QuestionPrints(t, i) {
      assert QuestionPrints(s, i);
      ShuffledIgnoresProfile(s, t, i);
    }
    PartsHideProfiles(s, t, |s.questions|, typed);
  }

  lemma {:induction false} PartsHideProfiles(s: Source, t: Source, n: nat, typed: Typed)
    requires Shuffles(s) && t == s.(answers := t.answers) && SameButProfile(s.answers, t.answers)
    requires Shuffles(t) && Printable(s) && Printable(t) && n <= |s.questions| && ValidTyped(typed)
    ensures PartsUpTo(t, n, typed) == PartsUpTo(s, n, typed)
  {
    if n > 0 {
      PartsHideProfiles(s, t, n - 1, typed);
      QuestionHidesProfiles(s, t, n - 1, typed);
    }
  }

  lemma QuestionHidesProfiles(s: Source, t: Source, i: nat, typed: Typed)
    requires Shuffles(s) && t == s.(answers := t.answers) && SameButProfile(s.answers, t.answers)
    requires Shuffles(t) && Printable(s) && Printable(t) && i < |s.questions| && ValidTyped(typed)
    ensures QuestionParts(t, i, typed) == QuestionParts(s, i, typed)
  {
    assert QuestionPrints(s, i) && QuestionPrints(t, i);
    ShuffledIgnoresProfile(s, t, i);
    AnswerPartsIgnoreProfile(Shuffled(s, i), Shuffled(t, i), 0, typed);
  }
}
