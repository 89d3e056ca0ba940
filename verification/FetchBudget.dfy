/** The job-fetch scheduler: N processes, each checking the day's spend in the database,
    fetching, and recording what it spent. The steps of different processes interleave. */
module FetchBudget {
  import opened Prelude

  type Time = int // seconds

  const DAY: Time := 86_400
  const LAST_USED_WINDOW: Time := 90 * DAY

  datatype FetchRun = FetchRun(query: string, startedAt: Time, requestsSpent: nat)

  datatype Config = Config(perDay: int, exhaustedPerDay: int, queries: nat, maxPages: nat) {
    /** The bounds the settings and the single call site put on these values. */
    predicate Valid() {
      1 <= perDay && 0 <= exhaustedPerDay && 1 <= maxPages
    }
  }

  function Midnight(now: Time): Time {
    now - now % DAY
  }

  function DayOf(t: Time): int {
    t / DAY
  }

  // ---------------------------------------------------------------- reads

  function RequestsSince(runs: seq<FetchRun>, since: Time): nat {
    if runs == [] then 0
    else RequestsSince(runs[..|runs| - 1], since)
         + if runs[|runs| - 1].startedAt >= since then runs[|runs| - 1].requestsSpent else 0
  }

  /** The queries asked inside the rotation window. */
  function LastUsed(runs: seq<FetchRun>, now: Time): set<string> {
    set i | 0 <= i < |runs| && runs[i].startedAt >= now - LAST_USED_WINDOW :: runs[i].query
  }

  /** The requests recorded for one UTC day: what the budget is supposed to bound. */
  function SpentOn(runs: seq<FetchRun>, day: int): nat {
    if runs == [] then 0
    else SpentOn(runs[..|runs| - 1], day)
         + if DayOf(runs[|runs| - 1].startedAt) == day then runs[|runs| - 1].requestsSpent else 0
  }

  /** The checks before a fetch. `choice` is the query the rotation picks, if any. */
  predicate MayFetch(cfg: Config, runs: seq<FetchRun>, now: Time, choice: Option<string>) {
    var spent := RequestsSince(runs, Midnight(now));
    && spent < cfg.perDay
    && choice.Some?
    && !(|LastUsed(runs, now)| >= cfg.queries && spent >= cfg.exhaustedPerDay)
  }

  function Charge(pages: nat): nat {
    if pages > 1 then pages else 1
  }

  // ---------------------------------------------------------------- interleaved steps

  datatype Process = Waiting | Fetching(query: string, checkedAt: Time)

  datatype System = System(runs: seq<FetchRun>, processes: seq<Process>, now: Time)

  datatype Event =
    | Check(p: nat, choice: Option<string>)
    | Record(p: nat, pages: nat, stamp: Time)
    | Raise(p: nat)
    | Advance(now: Time)

  /** The clock does not run backwards; only a fetching process records or raises; a fetch
      takes at most `maxPages` pages; the row's database timestamp lies between the check
      that opened its transaction and the moment it is written. */
  predicate Enabled(cfg: Config, s: System, e: Event) {
    match e
    case Check(p, _) => p < |s.processes| && s.processes[p].Waiting?
    case Record(p, pages, stamp) =>
      p < |s.processes| && s.processes[p].Fetching? && pages <= cfg.maxPages && s.processes[p].checkedAt <= stamp <= s.now
    case Raise(p) => p < |s.processes| && s.processes[p].Fetching?
    case Advance(now) => s.now <= now
  }

  function Step(cfg: Config, s: System, e: Event): System
    requires Enabled(cfg, s, e)
  {
    match e
    case Check(p, choice) =>
      if MayFetch(cfg, s.runs, s.now, choice)
      then s.(processes := s.processes[p := Fetching(choice.value, s.now)])
      else s
    case Record(p, pages, stamp) =>
      s.(runs := s.runs + [FetchRun(s.processes[p].query, stamp, Charge(pages))], processes := s.processes[p := Waiting])
    case Raise(p) => s.(processes := s.processes[p := Waiting])
    case Advance(now) => s.(now := now)
  }

  ghost predicate Runs(cfg: Config, s: System, events: seq<Event>, end: System)
    decreases |events|
  {
    if events == [] then s == end
    else Enabled(cfg, s, events[0]) && Runs(cfg, Step(cfg, s, events[0]), events[1..], end)
  }

  /** No runs recorded, every process asleep. */
  ghost predicate Initial(s: System, n: nat) {
    s.runs == [] && |s.processes| == n && forall p | 0 <= p < n :: s.processes[p].Waiting?
  }

  // ---------------------------------------------------------------- the overspend bound

  /** Processes that passed a check on or before `day` and have not recorded yet. */
  ghost function InFlight(processes: seq<Process>, day: int): nat {
    if processes == [] then 0
    else InFlight(processes[..|processes| - 1], day)
         + if processes[|processes| - 1].Fetching? && DayOf(processes[|processes| - 1].checkedAt) <= day then 1 else 0
  }

  lemma {:induction false} InFlightUpdate(processes: seq<Process>, p: nat, q: Process, day: int)
    requires p < |processes|
    ensures var counts := (x: Process) => if x.Fetching? && DayOf(x.checkedAt) <= day then 1 else 0;
            InFlight(processes[p := q], day) == InFlight(processes, day) - counts(processes[p]) + counts(q)
  {
    var last := |processes| - 1;
    if p == last {
      assert processes[p := q][..last] == processes[..last];
    } else {
      assert processes[p := q][..last] == processes[..last][p := q];
      InFlightUpdate(processes[..last], p, q, day);
    }
  }

  lemma {:induction false} InFlightBounds(processes: seq<Process>, day: int)
    ensures InFlight(processes, day) <= |processes|
    ensures (forall p | 0 <= p < |processes| :: processes[p].Waiting?) ==> InFlight(processes, day) == 0
  {
    if processes != [] {
      InFlightBounds(processes[..|processes| - 1], day);
    }
  }

  lemma {:induction false} DayWithinSince(runs: seq<FetchRun>, now: Time, day: int)
    requires DayOf(now) <= day
    ensures SpentOn(runs, day) <= RequestsSince(runs, Midnight(now))
  {
    if runs != [] {
      DayWithinSince(runs[..|runs| - 1], now, day);
      var t := runs[|runs| - 1].startedAt;
      assert DayOf(t) == day ==> t >= day * DAY >= Midnight(now);
    }
  }

  /** Midnight is the last multiple of a day not after `now`. */
  lemma MidnightExactly(now: Time)
    ensures Midnight(now) <= now < Midnight(now) + 86_400 && Midnight(now) % 86_400 == 0
    ensures DayOf(now) * 86_400 == Midnight(now)
  {
  }

  /** No row is stamped later than the day of `now`. */
  predicate NoneLater(runs: seq<FetchRun>, now: Time) {
    forall i | 0 <= i < |runs| :: DayOf(runs[i].startedAt) <= DayOf(now)
  }

  lemma OnTheDay(t: Time, now: Time)
    requires DayOf(t) <= DayOf(now)
    ensures t >= Midnight(now) <==> DayOf(t) == DayOf(now)
  {
  }

  /** What a check reads is the day's spend, to the request. */
  lemma {:induction false} TodayExactly(runs: seq<FetchRun>, now: Time)
    requires NoneLater(runs, now)
    ensures RequestsSince(runs, Midnight(now)) == SpentOn(runs, DayOf(now))
  {
    if runs != [] {
      TodayExactly(runs[..|runs| - 1], now);
      OnTheDay(runs[|runs| - 1].startedAt, now);
    }
  }

  /** One more row adds what it spent to its own day and to no other. */
  lemma SpentGrows(runs: seq<FetchRun>, run: FetchRun, day: int)
    ensures SpentOn([], day) == 0
    ensures SpentOn(runs + [run], day) == SpentOn(runs, day) + if run.startedAt / 86_400 == day then run.requestsSpent else 0
  {
    assert (runs + [run])[..|runs|] == runs;
  }

  /** Spent, plus one fetch for every process still in flight. */
  ghost function Committed(cfg: Config, s: System, day: int): int {
    SpentOn(s.runs, day) + cfg.maxPages * InFlight(s.processes, day)
  }

  lemma SpentIsCommitted(cfg: Config, s: System, day: int)
    ensures SpentOn(s.runs, day) <= Committed(cfg, s, day)
  {
    ProductOfNats(cfg.maxPages, InFlight(s.processes, day));
  }

  lemma ProductOfNats(a: nat, b: nat)
    ensures a * b >= 0
    ensures b == 0 ==> a * b == 0
  {
  }

  lemma {:induction false} Scale(m: nat, a: nat, b: nat)
    requires a <= b
    ensures m * a <= m * b
    ensures a < b ==> m * a + m <= m * b
    decreases b
  {
    if a < b {
      Scale(m, a, b - 1);
      assert m * b == m * (b - 1) + m;
    }
  }

  /** A check that passes below `cap` commits at most one fetch of every process beyond it. */
  lemma CheckStaysWithin(cfg: Config, s: System, p: nat, choice: Option<string>, day: int, cap: int)
    requires cfg.Valid() && Enabled(cfg, s, Check(p, choice))
    requires MayFetch(cfg, s.runs, s.now, choice) && RequestsSince(s.runs, Midnight(s.now)) < cap
    ensures var after := Committed(cfg, Step(cfg, s, Check(p, choice)), day);
            after <= Committed(cfg, s, day) || after <= cap - 1 + cfg.maxPages * |s.processes|
  {
    var s' := Step(cfg, s, Check(p, choice));
    InFlightUpdate(s.processes, p, s'.processes[p], day);
    if DayOf(s.now) <= day {
      DayWithinSince(s.runs, s.now, day);
      InFlightBounds(s'.processes, day);
      Scale(cfg.maxPages, InFlight(s'.processes, day), |s.processes|);
    }
  }

  /** Recording or raising takes one process out of flight, for at most one fetch's charge. */
  lemma FinishCommitsNothing(cfg: Config, s: System, e: Event, day: int)
    requires cfg.Valid() && Enabled(cfg, s, e) && (e.Record? || e.Raise?)
    ensures Committed(cfg, Step(cfg, s, e), day) <= Committed(cfg, s, day)
  {
    var s' := Step(cfg, s, e);
    InFlightUpdate(s.processes, e.p, Waiting, day);
    Scale(cfg.maxPages, InFlight(s'.processes, day), InFlight(s.processes, day));
    if e.Record? {
      assert s'.runs[..|s.runs|] == s.runs;
    }
  }

  /** Every check of the run that passes sees less than `cap` spent. */
  ghost predicate Capped(cfg: Config, s: System, events: seq<Event>, cap: int)
    decreases |events|
  {
    events == [] || (
      Enabled(cfg, s, events[0])
      && (events[0].Check? && MayFetch(cfg, s.runs, s.now, events[0].choice) ==> RequestsSince(s.runs, Midnight(s.now)) < cap)
      && Capped(cfg, Step(cfg, s, events[0]), events[1..], cap))
  }

  lemma StepStaysWithin(cfg: Config, s: System, e: Event, day: int, cap: int)
    requires cfg.Valid() && Enabled(cfg, s, e)
    requires e.Check? && MayFetch(cfg, s.runs, s.now, e.choice) ==> RequestsSince(s.runs, Midnight(s.now)) < cap
    ensures |Step(cfg, s, e).processes| == |s.processes|
    ensures var after := Committed(cfg, Step(cfg, s, e), day);
            after <= Committed(cfg, s, day) || after <= cap - 1 + cfg.maxPages * |s.processes|
  {
    match e
    case Check(p, choice) =>
      if MayFetch(cfg, s.runs, s.now, choice) {
        CheckStaysWithin(cfg, s, p, choice, day, cap);
      }
    case Record(p, pages, stamp) => FinishCommitsNothing(cfg, s, e, day);
    case Raise(p) => FinishCommitsNothing(cfg, s, e, day);
    case Advance(now) =>
  }

  lemma {:induction false} RunStaysWithin(cfg: Config, s: System, events: seq<Event>, end: System, day: int, cap: int)
    requires cfg.Valid() && Runs(cfg, s, events, end) && Capped(cfg, s, events, cap)
    ensures |end.processes| == |s.processes|
    ensures Committed(cfg, end, day) <= Committed(cfg, s, day)
         || Committed(cfg, end, day) <= cap - 1 + cfg.maxPages * |s.processes|
    decreases |events|
  {
    if events != [] {
      StepStaysWithin(cfg, s, events[0], day, cap);
      RunStaysWithin(cfg, Step(cfg, s, events[0]), events[1..], end, day, cap);
    }
  }

  lemma {:induction false} BudgetCaps(cfg: Config, s: System, events: seq<Event>, end: System)
    requires Runs(cfg, s, events, end)
    ensures Capped(cfg, s, events, cfg.perDay)
    decreases |events|
  {
    if events != [] {
      BudgetCaps(cfg, Step(cfg, s, events[0]), events[1..], end);
    }
  }

  /** However N processes interleave, and wherever midnight falls, the requests recorded for a
      day exceed the budget by at most one fetch per extra process; with single-page fetches
      that is the budget exactly for one process and one more for two. */
  lemma OverspendBounded(cfg: Config, s: System, n: nat, events: seq<Event>, end: System, day: int)
    requires cfg.Valid() && Initial(s, n) && Runs(cfg, s, events, end)
    ensures SpentOn(end.runs, day) <= cfg.perDay - 1 + cfg.maxPages * n
    ensures cfg.maxPages == 1 && n >= 1 ==> SpentOn(end.runs, day) <= cfg.perDay + (n - 1)
  {
    BudgetCaps(cfg, s, events, end);
    InFlightBounds(s.processes, day);
    ProductOfNats(cfg.maxPages, n);
    ProductOfNats(cfg.maxPages, InFlight(s.processes, day));
    RunStaysWithin(cfg, s, events, end, day, cfg.perDay);
    SpentIsCommitted(cfg, end, day);
  }

  // ---------------------------------------------------------------- an exhausted rotation

  lemma {:induction false} RunKeepsRows(cfg: Config, s: System, events: seq<Event>, end: System)
    requires Runs(cfg, s, events, end)
    ensures s.runs <= end.runs && s.now <= end.now
    decreases |events|
  {
    if events != [] {
      RunKeepsRows(cfg, Step(cfg, s, events[0]), events[1..], end);
    }
  }

  /** A query asked recently, as seen from a later moment, is one asked recently now. */
  lemma StillAsked(earlier: seq<FetchRun>, horizon: Time, runs: seq<FetchRun>, now: Time)
    requires earlier <= runs && now <= horizon
    ensures LastUsed(earlier, horizon) <= LastUsed(runs, now)
    ensures |LastUsed(earlier, horizon)| <= |LastUsed(runs, now)|
  {
    var few, many := LastUsed(earlier, horizon), LastUsed(runs, now);
    assert forall i | 0 <= i < |earlier| :: earlier[i] == runs[i];
    assert few <= many;
    assert many == few + (many - few);
  }

  lemma {:induction false} ExhaustionCaps(cfg: Config, first: seq<FetchRun>, s: System, events: seq<Event>, end: System)
    requires Runs(cfg, s, events, end) && first <= s.runs
    requires |LastUsed(first, end.now)| >= cfg.queries
    ensures Capped(cfg, s, events, cfg.exhaustedPerDay)
    decreases |events|
  {
    RunKeepsRows(cfg, s, events, end);
    StillAsked(first, end.now, s.runs, s.now);
    if events != [] {
      ExhaustionCaps(cfg, first, Step(cfg, s, events[0]), events[1..], end);
    }
  }

  /** Once every query has been asked recently enough to last the run, the smaller budget
      bounds the day the same way: what was already committed, or that budget plus one fetch
      per extra process. */
  lemma ExhaustedSpendsLess(cfg: Config, s: System, events: seq<Event>, end: System, day: int)
    requires cfg.Valid() && Runs(cfg, s, events, end)
    requires |LastUsed(s.runs, end.now)| >= cfg.queries
    ensures SpentOn(end.runs, day) <= Committed(cfg, s, day)
         || SpentOn(end.runs, day) <= cfg.exhaustedPerDay - 1 + cfg.maxPages * |s.processes|
  {
    ExhaustionCaps(cfg, s.runs, s, events, end);
    RunStaysWithin(cfg, s, events, end, day, cfg.exhaustedPerDay);
    SpentIsCommitted(cfg, end, day);
  }

  // ---------------------------------------------------------------- the bound is reached

  /** One query, asked at time 0, `spent` requests so far. */
  ghost predicate AllToday(s: System, spent: nat) {
    && s.now == 0
    && (forall i | 0 <= i < |s.runs| :: s.runs[i].query == "q" && s.runs[i].startedAt == 0)
    && RequestsSince(s.runs, 0) == spent && SpentOn(s.runs, 0) == spent
  }

  lemma CheckPasses(cfg: Config, s: System, spent: nat)
    requires AllToday(s, spent) && spent < cfg.perDay && cfg.queries >= 2
    ensures MayFetch(cfg, s.runs, s.now, Some("q"))
  {
    var asked := LastUsed(s.runs, s.now);
    assert asked <= {"q"};
    assert |asked| <= 1 by {
      if asked != {} {
        assert asked == {"q"};
      }
    }
  }

  lemma RecordCharges(cfg: Config, s: System, p: nat, pages: nat, spent: nat)
    requires AllToday(s, spent) && Enabled(cfg, s, Record(p, pages, 0)) && s.processes[p].query == "q"
    ensures AllToday(Step(cfg, s, Record(p, pages, 0)), spent + Charge(pages))
  {
    var s' := Step(cfg, s, Record(p, pages, 0));
    assert s'.runs[..|s.runs|] == s.runs;
  }

  /** Process 0 checks, fetches one page and records it. */
  lemma SpendOne(cfg: Config, s: System, spent: nat) returns (end: System)
    requires cfg.Valid() && cfg.queries >= 2 && AllToday(s, spent) && spent < cfg.perDay
    requires s.processes != [] && s.processes[0].Waiting?
    ensures Enabled(cfg, s, Check(0, Some("q")))
    ensures var checked := Step(cfg, s, Check(0, Some("q")));
            Enabled(cfg, checked, Record(0, 1, 0)) && end == Step(cfg, checked, Record(0, 1, 0))
    ensures AllToday(end, spent + 1) && end.processes == s.processes
  {
    CheckPasses(cfg, s, spent);
    var checked := Step(cfg, s, Check(0, Some("q")));
    RecordCharges(cfg, checked, 0, 1, spent);
    end := Step(cfg, checked, Record(0, 1, 0));
    assert end.processes == s.processes;
  }

  lemma TwoSteps(cfg: Config, s: System, first: Event, second: Event, rest: seq<Event>, end: System)
    requires Enabled(cfg, s, first) && Enabled(cfg, Step(cfg, s, first), second)
    requires Runs(cfg, Step(cfg, Step(cfg, s, first), second), rest, end)
    ensures Runs(cfg, s, [first, second] + rest, end)
  {
    OneStep(cfg, Step(cfg, s, first), second, rest, end);
    OneStep(cfg, s, first, [second] + rest, end);
    assert [first, second] + rest == [first] + ([second] + rest);
  }

  /** From any such state with process 0 asleep, spend `units` single pages. */
  lemma {:induction false} SpendUnits(cfg: Config, s: System, spent: nat, units: nat) returns (events: seq<Event>, end: System)
    requires cfg.Valid() && cfg.queries >= 2 && AllToday(s, spent) && spent + units <= cfg.perDay
    requires s.processes != [] && s.processes[0].Waiting?
    ensures Runs(cfg, s, events, end) && AllToday(end, spent + units) && end.processes == s.processes
    decreases units
  {
    if units == 0 {
      return [], s;
    }
    var next := SpendOne(cfg, s, spent);
    var rest;
    rest, end := SpendUnits(cfg, next, spent + 1, units - 1);
    events := [Check(0, Some("q")), Record(0, 1, 0)] + rest;
    TwoSteps(cfg, s, Check(0, Some("q")), Record(0, 1, 0), rest, end);
  }

  /** Every process from `p` on passes its check, and only then does each record. */
  lemma {:induction false} CheckThenRecord(cfg: Config, s: System, spent: nat, p: nat) returns (events: seq<Event>, end: System)
    requires cfg.Valid() && cfg.queries >= 2 && AllToday(s, spent) && spent < cfg.perDay
    requires p <= |s.processes| && forall i | p <= i < |s.processes| :: s.processes[i].Waiting?
    requires forall i | 0 <= i < p :: s.processes[i] == Fetching("q", 0)
    ensures Runs(cfg, s, events, end) && AllToday(end, spent + cfg.maxPages * |s.processes|)
    decreases |s.processes| - p
  {
    if p == |s.processes| {
      events, end := RecordAll(cfg, s, spent, 0, spent + cfg.maxPages * |s.processes|);
    } else {
      CheckPasses(cfg, s, spent);
      var check := Check(p, Some("q"));
      var rest;
      rest, end := CheckThenRecord(cfg, Step(cfg, s, check), spent, p + 1);
      events := [check] + rest;
      OneStep(cfg, s, check, rest, end);
    }
  }

  lemma OneMore(m: nat, k: nat)
    ensures m * (k + 1) == m + m * k
  {
  }

  lemma {:induction false} RecordAll(cfg: Config, s: System, spent: nat, p: nat, total: nat) returns (events: seq<Event>, end: System)
    requires cfg.Valid() && AllToday(s, spent)
    requires p <= |s.processes| && forall i | p <= i < |s.processes| :: s.processes[i] == Fetching("q", 0)
    requires total == spent + cfg.maxPages * (|s.processes| - p)
    ensures Runs(cfg, s, events, end) && AllToday(end, total)
    decreases |s.processes| - p
  {
    if p == |s.processes| {
      return [], s;
    }
    var record := Record(p, cfg.maxPages, 0);
    RecordCharges(cfg, s, p, cfg.maxPages, spent);
    var s' := Step(cfg, s, record);
    var rest;
    assert total == spent + cfg.maxPages + cfg.maxPages * (|s'.processes| - (p + 1)) by {
      OneMore(cfg.maxPages, |s.processes| - (p + 1));
    }
    rest, end := RecordAll(cfg, s', spent + cfg.maxPages, p + 1, total);
    events := [record] + rest;
    OneStep(cfg, s, record, rest, end);
  }

  lemma OneStep(cfg: Config, s: System, e: Event, rest: seq<Event>, end: System)
    requires Enabled(cfg, s, e) && Runs(cfg, Step(cfg, s, e), rest, end)
    ensures Runs(cfg, s, [e] + rest, end)
  {
    assert ([e] + rest)[1..] == rest;
  }

  lemma {:induction false} RunsAppend(cfg: Config, s: System, a: seq<Event>, mid: System, b: seq<Event>, end: System)
    requires Runs(cfg, s, a, mid) && Runs(cfg, mid, b, end)
    ensures Runs(cfg, s, a + b, end)
    decreases |a|
  {
    if a == [] {
      assert a + b == b;
    } else {
      assert (a + b)[1..] == a[1..] + b;
      RunsAppend(cfg, Step(cfg, s, a[0]), a[1..], mid, b, end);
    }
  }

  /** For every budget, page limit and number of processes some run reaches the bound. */
  lemma OverspendReached(cfg: Config, n: nat) returns (s: System, events: seq<Event>, end: System)
    requires cfg.Valid() && cfg.queries >= 2 && n >= 1
    ensures Initial(s, n) && Runs(cfg, s, events, end)
    ensures SpentOn(end.runs, 0) == cfg.perDay - 1 + cfg.maxPages * n
  {
    s := System([], seq(n, _ => Waiting), 0);
    var first, mid := SpendUnits(cfg, s, 0, cfg.perDay - 1);
    var second;
    second, end := CheckThenRecord(cfg, mid, cfg.perDay - 1, 0);
    RunsAppend(cfg, s, first, mid, second, end);
    events := first + second;
  }

  // ---------------------------------------------------------------- one tick of one process

  class Scheduler {
    var runs: seq<FetchRun>

    constructor ()
      ensures runs == []
    {
      runs := [];
    }

    /** Called even when a fetch created nothing: the spend has to count. */
    method Record(query: string, startedAt: Time, requestsSpent: nat)
      modifies this
      ensures runs == old(runs) + [FetchRun(query, startedAt, requestsSpent)]
    {
      runs := runs + [FetchRun(query, startedAt, requestsSpent)];
    }

    /** One tick. `fetched` is how many pages the fetch reports, or None if it raises, which
        leaves no row. A tick alone is a check step followed by a record or raise step. */
    method RunOneFetch(cfg: Config, now: Time, choice: Option<string>, fetched: Option<nat>) returns (spentOne: bool)
      requires fetched.Some? ==> fetched.value <= cfg.maxPages
      modifies this
      ensures var start := System(old(runs), [Waiting], now);
              var checked := Step(cfg, start, Check(0, choice));
              var end := if checked.processes[0].Waiting? then checked
                         else if fetched.None? then Step(cfg, checked, Event.Raise(0))
                         else Step(cfg, checked, Event.Record(0, fetched.value, now));
              end == System(runs, [Waiting], now)
      ensures spentOne <==> runs != old(runs)
      ensures spentOne ==>
                runs == old(runs) + [FetchRun(choice.value, now, if fetched.value > 1 then fetched.value else 1)]
      ensures !spentOne ==> runs == old(runs)
      ensures NoneLater(old(runs), now) ==>
                var spent := SpentOn(old(runs), DayOf(now));
                var asked := set i | 0 <= i < |old(runs)| && now - old(runs)[i].startedAt <= 90 * 86_400 :: old(runs)[i].query;
                spentOne <==>
                  && fetched.Some? && choice.Some? && spent < cfg.perDay
                  && !(|asked| >= cfg.queries && spent >= cfg.exhaustedPerDay)
    {
      if NoneLater(runs, now) {
        TodayExactly(runs, now);
      }
      ghost var asked := set i | 0 <= i < |runs| && now - runs[i].startedAt <= 90 * 86_400 :: runs[i].query;
      assert asked == LastUsed(runs, now);
      var spent := RequestsSince(runs, Midnight(now));
      if spent >= cfg.perDay {
        return false;
      }
      if choice.None? {
        return false;
      }
      var exhausted := |LastUsed(runs, now)| >= cfg.queries;
      if exhausted && spent >= cfg.exhaustedPerDay {
        return false;
      }
      if fetched.None? {
        return false;
      }
      Record(choice.value, now, Charge(fetched.value));
      spentOne := true;
    }
  }
}
