/** The applications table: at most one live row per (user, job), tombstones kept forever. */
module Applications {
  import opened Prelude

  type Time = int

  datatype Status = Saved | Applied | Assessment | Interview | Offer | Rejected | Withdrawn

  datatype Application = Application(
    user: nat,
    job: nat,
    status: Status,
    isSaved: bool,
    appliedAt: Option<Time>,
    resumeVersion: Option<nat>,
    matchScore: Option<real>,
    createdAt: Time,
    updatedAt: Time,
    deletedAt: Option<Time>)
  {
    predicate IsLive() {
      deletedAt.None?
    }
  }

  type Table = map<nat, Application>

  // ---------------------------------------------------------------- what the schema enforces

  /** applied_has_timestamp and saved_or_applied */
  predicate Checks(a: Application) {
    && match a.status {
         case Saved => a.appliedAt.None?
         case Rejected => true
         case Withdrawn => true
         case _ => a.appliedAt.Some?
       }
    && (a.isSaved || a.status != Saved)
  }

  /** The CHECK constraints and the partial unique index. */
  ghost predicate Valid(rows: Table) {
    && (forall id | id in rows :: Checks(rows[id]))
    && (forall i, j | i in rows && j in rows && rows[i].IsLive() && rows[j].IsLive()
          && rows[i].user == rows[j].user && rows[i].job == rows[j].job :: i == j)
  }

  // ---------------------------------------------------------------- statements

  function LiveIds(rows: Table, user: nat, job: nat): set<nat> {
    set id | id in rows && rows[id].user == user && rows[id].job == job && rows[id].IsLive()
  }

  /** What a caller asks for. */
  datatype Wish = Wish(saved: bool, applied: bool, resumeVersion: Option<nat>, matchScore: Option<real>)

  datatype DbError = IntegrityError

  function Proposed(user: nat, job: nat, w: Wish, now: Time): Application {
    Application(user, job, if w.applied then Applied else Saved, w.saved,
                if w.applied then Some(now) else None,
                if w.applied then w.resumeVersion else None,
                if w.applied then w.matchScore else None,
                now, now, None)
  }

  /** INSERT ... ON CONFLICT (user_id, job_id) WHERE deleted_at IS NULL DO UPDATE. The proposed
      row is checked before the conflict is looked for. */
  function UpsertRows(rows: Table, id: nat, user: nat, job: nat, w: Wish, now: Time): Result<Table, DbError> {
    var row := Proposed(user, job, w, now);
    if !Checks(row) then Err(IntegrityError)
    else
      var live := LiveIds(rows, user, job);
      if live == {} then Ok(rows[id := row])
      else Ok(map i | i in rows :: if i in live then row.(createdAt := rows[i].createdAt) else rows[i])
  }

  function DeleteRows(rows: Table, user: nat, job: nat, now: Time): Table {
    map i | i in rows ::
      if i in LiveIds(rows, user, job) then rows[i].(deletedAt := Some(now)) else rows[i]
  }

  // ---------------------------------------------------------------- the simple map it refines

  /** What a user's relationship to a job consists of. */
  datatype Relation = Relation(
    status: Status, isSaved: bool, appliedAt: Option<Time>, resumeVersion: Option<nat>, matchScore: Option<real>)

  function RelationOf(a: Application): Relation {
    Relation(a.status, a.isSaved, a.appliedAt, a.resumeVersion, a.matchScore)
  }

  function Key(a: Application): (nat, nat) {
    (a.user, a.job)
  }

  ghost predicate LiveAt(rows: Table, id: nat, k: (nat, nat)) {
    id in rows && rows[id].IsLive() && Key(rows[id]) == k
  }

  /** The live rows are exactly the entries of `view`. */
  ghost predicate Shows(rows: Table, view: map<(nat, nat), Relation>) {
    && (forall id | id in rows && rows[id].IsLive() ::
          Key(rows[id]) in view && view[Key(rows[id])] == RelationOf(rows[id]))
    && (forall k | k in view :: exists id :: LiveAt(rows, id, k))
  }

  /** A table shows one map only. */
  lemma ShowsIsUnique(rows: Table, v: map<(nat, nat), Relation>, w: map<(nat, nat), Relation>)
    requires Shows(rows, v) && Shows(rows, w)
    ensures v == w
  {
    assert forall k | k in v :: k in w && v[k] == w[k];
    assert forall k | k in w :: k in v;
  }

  /** The relation a wish asks for, or none when it asks for nothing at all. */
  function Wanted(w: Wish, now: Time): Option<Relation> {
    if w.applied then Some(Relation(Applied, w.saved, Some(now), w.resumeVersion, w.matchScore))
    else if w.saved then Some(Relation(Saved, true, None, None, None))
    else None
  }

  /** Tombstones are exactly as they were, and no row is ever removed. */
  ghost predicate KeepsTombstones(before: Table, after: Table) {
    && before.Keys <= after.Keys
    && forall id | id in before && !before[id].IsLive() :: after[id] == before[id]
  }

  lemma UpsertRefines(rows: Table, view: map<(nat, nat), Relation>, id: nat, user: nat, job: nat, w: Wish, now: Time)
    requires Valid(rows) && Shows(rows, view) && id !in rows
    ensures var r := UpsertRows(rows, id, user, job, w, now);
            match Wanted(w, now)
            case None => r == Err(IntegrityError)
            case Some(relation) =>
              && r.Ok? && Valid(r.value) && KeepsTombstones(rows, r.value)
              && Shows(r.value, view[(user, job) := relation])
              && r.value.Keys <= rows.Keys + {id}
              && (forall i | i in rows && i !in LiveIds(rows, user, job) :: r.value[i] == rows[i])
              && (forall i | i in LiveIds(rows, user, job) :: r.value[i].createdAt == rows[i].createdAt)
  {
    var r := UpsertRows(rows, id, user, job, w, now);
    if r.Ok? {
      var live := LiveIds(rows, user, job);
      if live == {} {
        assert forall i | i in rows && Key(rows[i]) == (user, job) :: rows[i].IsLive() ==> i in live;
        InsertShows(rows, view, id, r.value);
      } else {
        var current :| current in live;
        UpdateShows(rows, view, current, r.value);
      }
    }
  }

  lemma InsertShows(rows: Table, view: map<(nat, nat), Relation>, id: nat, after: Table)
    requires Valid(rows) && Shows(rows, view) && id !in rows
    requires after.Keys == rows.Keys + {id} && after[id].IsLive() && Checks(after[id])
    requires forall i | i in rows :: after[i] == rows[i]
    requires forall i | i in rows && rows[i].IsLive() :: Key(rows[i]) != Key(after[id])
    ensures Valid(after) && Shows(after, view[Key(after[id]) := RelationOf(after[id])])
  {
    var expected := view[Key(after[id]) := RelationOf(after[id])];
    forall k | k in expected ensures exists i :: LiveAt(after, i, k) {
      if k == Key(after[id]) {
        assert LiveAt(after, id, k);
      } else {
        var i :| LiveAt(rows, i, k);
        assert LiveAt(after, i, k);
      }
    }
  }

  lemma UpdateShows(rows: Table, view: map<(nat, nat), Relation>, id: nat, after: Table)
    requires Valid(rows) && Shows(rows, view) && id in rows && rows[id].IsLive() && after.Keys == rows.Keys
    requires after[id].IsLive() && Checks(after[id]) && Key(after[id]) == Key(rows[id])
    requires forall i | i in rows && i != id :: after[i] == rows[i]
    ensures Valid(after) && Shows(after, view[Key(after[id]) := RelationOf(after[id])])
  {
    var expected := view[Key(after[id]) := RelationOf(after[id])];
    forall k | k in expected ensures exists i :: LiveAt(after, i, k) {
      if k == Key(after[id]) {
        assert LiveAt(after, id, k);
      } else {
        var i :| LiveAt(rows, i, k);
        assert LiveAt(after, i, k);
      }
    }
  }

  lemma LiveIdsShown(rows: Table, view: map<(nat, nat), Relation>, user: nat, job: nat)
    requires Valid(rows) && Shows(rows, view)
    ensures (user, job) in view <==> LiveIds(rows, user, job) != {}
    ensures forall id | id in LiveIds(rows, user, job) :: RelationOf(rows[id]) == view[Key(rows[id])] && Key(rows[id]) == (user, job)
  {
    if (user, job) in view {
      var id :| LiveAt(rows, id, (user, job));
      assert id in LiveIds(rows, user, job);
    }
  }

  lemma DeleteRefines(rows: Table, view: map<(nat, nat), Relation>, user: nat, job: nat, now: Time)
    requires Valid(rows) && Shows(rows, view)
    ensures var after := DeleteRows(rows, user, job, now);
            && Valid(after) && KeepsTombstones(rows, after) && after.Keys == rows.Keys
            && Shows(after, view - {(user, job)})
            && (forall id | id in LiveIds(rows, user, job) :: after[id] == rows[id].(deletedAt := Some(now)))
  {
    var after := DeleteRows(rows, user, job, now);
    assert forall id | id in after && after[id].IsLive() :: after[id] == rows[id] && Key(rows[id]) != (user, job);
    forall k | k in view - {(user, job)} ensures exists i :: LiveAt(after, i, k) {
      var i :| LiveAt(rows, i, k);
      assert LiveAt(after, i, k);
    }
  }

  // ---------------------------------------------------------------- runs

  datatype Op = Put(user: nat, job: nat, wish: Wish, now: Time) | Drop(user: nat, job: nat, now: Time)

  function ApplyRows(rows: Table, next: nat, op: Op): Table {
    match op
    case Put(user, job, wish, now) =>
      (match UpsertRows(rows, next, user, job, wish, now) case Ok(t) => t case Err(_) => rows)
    case Drop(user, job, now) => DeleteRows(rows, user, job, now)
  }

  function RunRows(rows: Table, next: nat, ops: seq<Op>): Table
    decreases |ops|
  {
    if ops == [] then rows else RunRows(ApplyRows(rows, next, ops[0]), next + 1, ops[1..])
  }

  function Apply(view: map<(nat, nat), Relation>, op: Op): map<(nat, nat), Relation> {
    match op
    case Put(user, job, wish, now) =>
      (match Wanted(wish, now) case Some(relation) => view[(user, job) := relation] case None => view)
    case Drop(user, job, now) => view - {(user, job)}
  }

  function RunMap(view: map<(nat, nat), Relation>, ops: seq<Op>): map<(nat, nat), Relation>
    decreases |ops|
  {
    if ops == [] then view else RunMap(Apply(view, ops[0]), ops[1..])
  }

  lemma OpRefines(rows: Table, view: map<(nat, nat), Relation>, next: nat, op: Op)
    requires Valid(rows) && Shows(rows, view) && next !in rows
    ensures var after := ApplyRows(rows, next, op);
            && Valid(after) && KeepsTombstones(rows, after) && Shows(after, Apply(view, op))
            && after.Keys <= rows.Keys + {next}
  {
    match op
    case Put(user, job, wish, now) => UpsertRefines(rows, view, next, user, job, wish, now);
    case Drop(user, job, now) => DeleteRefines(rows, view, user, job, now);
  }

  ghost predicate IdsBelow(rows: Table, next: nat) {
    forall id | id in rows :: id < next
  }

  /** Any run over the tombstoned table is the same run over a plain map. */
  lemma {:induction false} RunRefines(rows: Table, view: map<(nat, nat), Relation>, next: nat, ops: seq<Op>)
    requires Valid(rows) && Shows(rows, view) && IdsBelow(rows, next)
    ensures var after := RunRows(rows, next, ops);
            Valid(after) && KeepsTombstones(rows, after) && Shows(after, RunMap(view, ops))
    decreases |ops|
  {
    if ops != [] {
      OpRefines(rows, view, next, ops[0]);
      RunRefines(ApplyRows(rows, next, ops[0]), Apply(view, ops[0]), next + 1, ops[1..]);
    }
  }

  /** Every valid table shows some map. */
  lemma ShowsSome(rows: Table) returns (view: map<(nat, nat), Relation>)
    requires Valid(rows)
    ensures Shows(rows, view)
  {
    view := map id | id in rows && rows[id].IsLive() :: Key(rows[id]) := RelationOf(rows[id]);
    forall k | k in view ensures exists id :: LiveAt(rows, id, k) {
      var id :| id in rows && rows[id].IsLive() && Key(rows[id]) == k;
      assert LiveAt(rows, id, k);
    }
  }

  lemma {:induction false} RunRowsAppend(rows: Table, next: nat, a: seq<Op>, b: seq<Op>)
    ensures RunRows(rows, next, a + b) == RunRows(RunRows(rows, next, a), next + |a|, b)
    decreases |a|
  {
    if a == [] {
      assert a + b == b;
    } else {
      assert (a + b)[0] == a[0] && (a + b)[1..] == a[1..] + b;
      RunRowsAppend(ApplyRows(rows, next, a[0]), next + 1, a[1..], b);
    }
  }

  lemma OpKeeps(rows: Table, next: nat, op: Op)
    requires Valid(rows) && IdsBelow(rows, next)
    ensures var after := ApplyRows(rows, next, op);
            Valid(after) && KeepsTombstones(rows, after) && IdsBelow(after, next + 1)
  {
    var view := ShowsSome(rows);
    OpRefines(rows, view, next, op);
  }

  lemma KeepsTombstonesThrough(before: Table, mid: Table, after: Table)
    requires KeepsTombstones(before, mid) && KeepsTombstones(mid, after)
    ensures KeepsTombstones(before, after)
  {
    forall id | id in before && !before[id].IsLive() ensures after[id] == before[id] {
      assert mid[id] == before[id];
    }
  }

  lemma RunStep(rows: Table, next: nat, op: Op, ops: seq<Op>, after: Table)
    requires after == ApplyRows(rows, next, op)
    ensures RunRows(rows, next, [op] + ops) == RunRows(after, next + 1, ops)
  {
    assert ([op] + ops)[1..] == ops;
  }

  /** What a run keeps, read off the table alone. */
  lemma {:induction false} RunKeeps(rows: Table, next: nat, ops: seq<Op>)
    requires Valid(rows) && IdsBelow(rows, next)
    ensures var after := RunRows(rows, next, ops);
            Valid(after) && KeepsTombstones(rows, after) && IdsBelow(after, next + |ops|)
    decreases |ops|
  {
    if ops != [] {
      var mid := ApplyRows(rows, next, ops[0]);
      OpKeeps(rows, next, ops[0]);
      RunKeeps(mid, next + 1, ops[1..]);
      KeepsTombstonesThrough(rows, mid, RunRows(mid, next + 1, ops[1..]));
    }
  }

  /** Operations about other pairs give a pair without a live row none. */
  lemma {:induction false} OthersGiveNone(rows: Table, next: nat, ops: seq<Op>, user: nat, job: nat)
    requires Valid(rows) && IdsBelow(rows, next) && LiveIds(rows, user, job) == {}
    requires forall i | 0 <= i < |ops| :: (ops[i].user, ops[i].job) != (user, job)
    ensures LiveIds(RunRows(rows, next, ops), user, job) == {}
    decreases |ops|
  {
    if ops != [] {
      OpKeeps(rows, next, ops[0]);
      OthersKeepNone(rows, next, ops[0], user, job);
      OthersGiveNone(ApplyRows(rows, next, ops[0]), next + 1, ops[1..], user, job);
    }
  }

  lemma OthersKeepNone(rows: Table, next: nat, op: Op, user: nat, job: nat)
    requires Valid(rows) && IdsBelow(rows, next) && LiveIds(rows, user, job) == {} && (op.user, op.job) != (user, job)
    ensures LiveIds(ApplyRows(rows, next, op), user, job) == {}
  {
    var view := ShowsSome(rows);
    OpRefines(rows, view, next, op);
    LiveIdsShown(rows, view, user, job);
    LiveIdsShown(ApplyRows(rows, next, op), Apply(view, op), user, job);
  }

  /** Removing an application and saving the job again, whatever happens to other pairs in
      between: the removed row keeps all it recorded, under its deletion time, and the only live
      row of the pair is a new one, a bare bookmark. */
  lemma ResavingNeverRevives(rows: Table, next: nat, user: nat, job: nat, before: nat,
                             removed: Time, between: seq<Op>, wish: Wish, resaved: Time)
    requires Valid(rows) && IdsBelow(rows, next) && before in LiveIds(rows, user, job)
    requires forall i | 0 <= i < |between| :: (between[i].user, between[i].job) != (user, job)
    requires wish.saved && !wish.applied
    ensures var after := RunRows(rows, next, [Drop(user, job, removed)] + between + [Put(user, job, wish, resaved)]);
            var newest := next + 1 + |between|;
            && before in after && after[before] == rows[before].(deletedAt := Some(removed))
            && LiveIds(after, user, job) == {newest} && before != newest
            && after[newest] == Application(user, job, Saved, true, None, None, None, resaved, resaved, None)
  {
    var drop := Drop(user, job, removed);
    var rest := between + [Put(user, job, wish, resaved)];
    var dropped := DeleteRows(rows, user, job, removed);
    RemovalKept(rows, user, job, before, removed);
    OpKeeps(rows, next, drop);
    RemovedThenResaved(dropped, next + 1, before, between, user, job, wish, resaved);
    RunStep(rows, next, drop, rest, dropped);
    Associative([drop], between, [Put(user, job, wish, resaved)]);
  }

  lemma RemovedThenResaved(rows: Table, next: nat, gone: nat, between: seq<Op>, user: nat, job: nat, wish: Wish, now: Time)
    requires Valid(rows) && IdsBelow(rows, next) && LiveIds(rows, user, job) == {} && gone in rows && !rows[gone].IsLive()
    requires forall i | 0 <= i < |between| :: (between[i].user, between[i].job) != (user, job)
    requires wish.saved && !wish.applied
    ensures var last := next + |between|;
            var after := RunRows(rows, next, between + [Put(user, job, wish, now)]);
            && gone in after && after[gone] == rows[gone] && LiveIds(after, user, job) == {last}
            && after[last] == Application(user, job, Saved, true, None, None, None, now, now, None)
  {
    var mid, put := RunRows(rows, next, between), Put(user, job, wish, now);
    RunKeeps(rows, next, between);
    OthersGiveNone(rows, next, between, user, job);
    BookmarkIsNew(mid, next + |between|, user, job, wish, now);
    RunRowsAppend(rows, next, between, [put]);
    RunStep(mid, next + |between|, put, [], ApplyRows(mid, next + |between|, put));
    assert [put] + [] == [put];
  }

  lemma RemovalKept(rows: Table, user: nat, job: nat, before: nat, removed: Time)
    requires Valid(rows) && before in LiveIds(rows, user, job)
    ensures var dropped := DeleteRows(rows, user, job, removed);
            && LiveIds(dropped, user, job) == {}
            && before in dropped && dropped[before] == rows[before].(deletedAt := Some(removed))
  {
  }

  lemma BookmarkIsNew(rows: Table, next: nat, user: nat, job: nat, wish: Wish, now: Time)
    requires IdsBelow(rows, next) && LiveIds(rows, user, job) == {} && wish.saved && !wish.applied
    ensures var after := ApplyRows(rows, next, Put(user, job, wish, now));
            && LiveIds(after, user, job) == {next} && after.Keys == rows.Keys + {next}
            && (forall id | id in rows :: after[id] == rows[id])
            && after[next] == Application(user, job, Saved, true, None, None, None, now, now, None)
  {
    assert ApplyRows(rows, next, Put(user, job, wish, now)) == rows[next := Proposed(user, job, wish, now)];
    assert forall id | id in rows :: id !in LiveIds(rows, user, job);
  }

  // ---------------------------------------------------------------- what a row records

  /** What a live row holds after the caller states the whole relationship: applied or merely
      saved, the bookmark beside it, and the snapshot only with an application. */
  lemma StatedExactly(rows: Table, next: nat, user: nat, job: nat, wish: Wish, now: Time)
    requires Valid(rows) && IdsBelow(rows, next) && (wish.saved || wish.applied)
    ensures var after := ApplyRows(rows, next, Put(user, job, wish, now));
            var live := LiveIds(rows, user, job);
            && (live == {} ==> LiveIds(after, user, job) == {next} && after.Keys == rows.Keys + {next})
            && (live != {} ==> LiveIds(after, user, job) == live && after.Keys == rows.Keys)
            && (forall id | id in rows && id !in live :: after[id] == rows[id])
            && forall id | id in LiveIds(after, user, job) ::
                 var created := if id in rows then rows[id].createdAt else now;
                 after[id] == if wish.applied
                   then Application(user, job, Applied, wish.saved, Some(now), wish.resumeVersion, wish.matchScore, created, now, None)
                   else Application(user, job, Saved, true, None, None, None, created, now, None)
  {
    var row := Proposed(user, job, wish, now);
    assert Checks(row);
    var live := LiveIds(rows, user, job);
    var after := ApplyRows(rows, next, Put(user, job, wish, now));
    if live == {} {
      assert after == rows[next := row];
      assert forall id | id in rows :: id !in live;
    } else {
      assert forall id | id in live :: id in after && after[id] == row.(createdAt := rows[id].createdAt);
      assert forall id | id in LiveIds(after, user, job) :: id in live;
    }
  }

  /** Asking for neither is refused and leaves every row alone. */
  lemma NeitherRefused(rows: Table, next: nat, user: nat, job: nat, wish: Wish, now: Time)
    requires !wish.saved && !wish.applied
    ensures UpsertRows(rows, next, user, job, wish, now) == Err(IntegrityError)
    ensures ApplyRows(rows, next, Put(user, job, wish, now)) == rows
  {
  }

  /** Applied for exactly if dated; otherwise a bookmark without a snapshot. */
  ghost predicate Coherent(a: Application) {
    && (a.status == Applied || a.status == Saved)
    && (a.status == Applied <==> a.appliedAt != None)
    && (a.status == Saved ==> a.isSaved && a.resumeVersion == None && a.matchScore == None)
  }

  /** Every row of every run is so, tombstones included: no other status occurs. */
  lemma {:induction false} RunKeepsCoherent(rows: Table, next: nat, ops: seq<Op>)
    requires forall id | id in rows :: Coherent(rows[id])
    ensures forall id | id in RunRows(rows, next, ops) :: Coherent(RunRows(rows, next, ops)[id])
    decreases |ops|
  {
    if ops != [] {
      RunKeepsCoherent(ApplyRows(rows, next, ops[0]), next + 1, ops[1..]);
    }
  }

  // ---------------------------------------------------------------- the repository

  class ApplicationRepository {
    var rows: Table
    var next: nat
    ghost var view: map<(nat, nat), Relation>

    constructor ()
      ensures rows == map[] && view == map[] && Consistent()
    {
      rows := map[];
      next := 0;
      view := map[];
    }

    ghost predicate Consistent()
      reads this
    {
      Valid(rows) && Shows(rows, view) && IdsBelow(rows, next)
    }

    method Upsert(user: nat, job: nat, saved: bool, applied: bool,
                  resumeVersion: Option<nat>, matchScore: Option<real>, now: Time)
      returns (r: Result<Application, DbError>)
      requires Consistent()
      modifies this
      ensures Consistent() && KeepsTombstones(old(rows), rows)
      ensures match Wanted(Wish(saved, applied, resumeVersion, matchScore), now)
              case None => r.Err? && rows == old(rows) && view == old(view)
              case Some(relation) =>
                && view == old(view)[(user, job) := relation]
                && r.Ok? && r.value.IsLive() && Key(r.value) == (user, job) && RelationOf(r.value) == relation
                && r.value in rows.Values
    {
      var id := next;
      next := next + 1;
      var w := Wish(saved, applied, resumeVersion, matchScore);
      UpsertRefines(rows, view, id, user, job, w, now);
      var written := UpsertRows(rows, id, user, job, w, now);
      if written.Err? {
        return Err(written.error);
      }
      rows := written.value;
      view := view[(user, job) := Wanted(w, now).value];
      var row := GetForJob(user, job);
      r := Ok(row.value);
    }

    /** The live row, if there is one. */
    method GetForJob(user: nat, job: nat) returns (r: Option<Application>)
      requires Consistent()
      ensures r.Some? <==> (user, job) in view
      ensures r.Some? ==>
        && r.value.IsLive() && Key(r.value) == (user, job) && RelationOf(r.value) == view[(user, job)]
        && r.value in rows.Values
    {
      LiveIdsShown(rows, view, user, job);
      var live := LiveIds(rows, user, job);
      if live == {} {
        return None;
      }
      var id :| id in live;
      r := Some(rows[id]);
    }

    /** One query for several cards, keyed by job. */
    method ForJobs(user: nat, jobs: seq<nat>) returns (r: map<nat, Application>)
      requires Consistent()
      ensures forall job :: job in r <==> job in jobs && (user, job) in view
      ensures forall job | job in r ::
                && r[job].IsLive() && Key(r[job]) == (user, job) && RelationOf(r[job]) == view[(user, job)]
                && r[job] in rows.Values
    {
      r := map[];
      for i := 0 to |jobs|
        invariant forall job :: job in r <==> job in jobs[..i] && (user, job) in view
        invariant forall job | job in r ::
                    && r[job].IsLive() && Key(r[job]) == (user, job) && RelationOf(r[job]) == view[(user, job)]
                    && r[job] in rows.Values
      {
        var row := GetForJob(user, jobs[i]);
        assert jobs[..i + 1] == jobs[..i] + [jobs[i]];
        if row.Some? {
          r := r[jobs[i] := row.value];
        }
      }
      assert jobs[..|jobs|] == jobs;
    }

    method SoftDelete(user: nat, job: nat, now: Time) returns (removed: bool)
      requires Consistent()
      modifies this`rows, this`view
      ensures Consistent() && KeepsTombstones(old(rows), rows)
      ensures view == old(view) - {(user, job)}
      ensures removed <==> (user, job) in old(view)
    {
      DeleteRefines(rows, view, user, job, now);
      LiveIdsShown(rows, view, user, job);
      removed := LiveIds(rows, user, job) != {};
      rows := DeleteRows(rows, user, job, now);
      view := view - {(user, job)};
    }
  }
}
