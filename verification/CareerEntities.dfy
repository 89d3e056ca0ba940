/** Work history, education, projects and certifications: one table shape, keyed by its unique
    index (user, content key), re-parsed without disturbing what the user asserted. */
module CareerEntities {
  import opened Prelude

  type Time = int

  datatype Row = Row(
    id: nat,
    version: Option<nat>,
    payload: string,
    verified: bool,
    createdAt: Time,
    updatedAt: Time)

  type Table = map<(nat, string), Row>

  datatype Entry = Entry(key: string, payload: string)

  /** The statement proposed the same row twice; nothing it did is kept. */
  datatype DbError = CardinalityViolation

  // ---------------------------------------------------------------- extraction output

  ghost predicate DistinctKeys(entries: seq<Entry>) {
    forall i, j | 0 <= i < j < |entries| :: entries[i].key != entries[j].key
  }

  predicate HasKey(entries: seq<Entry>, key: string) {
    exists i :: 0 <= i < |entries| && entries[i].key == key
  }

  /** The first of any entries sharing a content key, in order. */
  function Deduped(entries: seq<Entry>): (unique: seq<Entry>)
    ensures DistinctKeys(unique)
    ensures forall key :: HasKey(unique, key) <==> HasKey(entries, key)
  {
    if entries == [] then []
    else
      var init, last := entries[..|entries| - 1], entries[|entries| - 1];
      var unique := Deduped(init);
      assert entries == init + [last];
      KeySnoc(init, last);
      KeySnoc(unique, last);
      if HasKey(unique, last.key) then unique else unique + [last]
  }

  /** A kept entry is the one that came first. */
  lemma {:induction false} DedupedKeepsFirsts(entries: seq<Entry>, i: nat)
    requires i < |entries|
    ensures entries[i] in Deduped(entries) || HasKey(entries[..i], entries[i].key)
    ensures !HasKey(entries[..i], entries[i].key) ==> entries[i] in Deduped(entries)
    decreases |entries|
  {
    var init := entries[..|entries| - 1];
    if i < |init| {
      assert init[..i] == entries[..i];
      DedupedKeepsFirsts(init, i);
    } else {
      assert init == entries[..i];
      if !HasKey(init, entries[i].key) {
        assert Deduped(entries) == Deduped(init) + [entries[i]];
      }
    }
  }

  /** The places, in order, of the entries no earlier one shares a key with. */
  ghost predicate FirstPlaces(places: seq<nat>, entries: seq<Entry>) {
    && (forall j, k | 0 <= j < k < |places| :: places[j] < places[k])
    && (forall p: nat :: p in places <==> p < |entries| && !HasKey(entries[..p], entries[p].key))
  }

  lemma FirstPlacesNext(places: seq<nat>, entries: seq<Entry>)
    requires entries != [] && FirstPlaces(places, entries[..|entries| - 1])
    ensures var n := |entries| - 1;
            FirstPlaces(if HasKey(entries[..n], entries[n].key) then places else places + [n], entries)
  {
    var n := |entries| - 1;
    var init := entries[..n];
    var longer := if HasKey(init, entries[n].key) then places else places + [n];
    forall p: nat ensures p in longer <==> p < |entries| && !HasKey(entries[..p], entries[p].key) {
      if p < n {
        assert init[..p] == entries[..p] && init[p] == entries[p];
        assert p in places <==> !HasKey(entries[..p], entries[p].key);
      }
    }
    forall j, k | 0 <= j < k < |longer| ensures longer[j] < longer[k] {
      assert longer[j] in places;
    }
  }

  ghost predicate StandAt(unique: seq<Entry>, entries: seq<Entry>, places: seq<nat>) {
    |unique| == |places| && forall j | 0 <= j < |places| :: places[j] < |entries| && unique[j] == entries[places[j]]
  }

  lemma StandAtNext(unique: seq<Entry>, init: seq<Entry>, last: Entry, places: seq<nat>)
    requires StandAt(unique, init, places)
    ensures StandAt(unique, init + [last], places)
    ensures StandAt(unique + [last], init + [last], places + [|init|])
  {
  }

  /** Exactly those entries are kept, in that order. */
  lemma {:induction false} DedupedExactly(entries: seq<Entry>) returns (places: seq<nat>)
    ensures FirstPlaces(places, entries) && StandAt(Deduped(entries), entries, places)
    decreases |entries|
  {
    places := [];
    if entries != [] {
      var n := |entries| - 1;
      var init, last := entries[..n], entries[n];
      assert entries == init + [last];
      var before := DedupedExactly(init);
      FirstPlacesNext(before, entries);
      StandAtNext(Deduped(init), init, last, before);
      places := if HasKey(init, last.key) then before else before + [n];
    }
  }

  method Deduplicate(entries: seq<Entry>) returns (unique: seq<Entry>)
    ensures unique == Deduped(entries)
  {
    var seen: set<string> := {};
    unique := [];
    for i := 0 to |entries|
      invariant unique == Deduped(entries[..i])
      invariant forall key :: key in seen <==> HasKey(entries[..i], key)
    {
      var entry := entries[i];
      assert entries[..i + 1] == entries[..i] + [entry];
      KeySnoc(entries[..i], entry);
      assert entries[..i + 1][..|entries[..i + 1]| - 1] == entries[..i];
      if entry.key !in seen {
        seen := seen + {entry.key};
        unique := unique + [entry];
      }
    }
    assert entries[..|entries|] == entries;
  }

  lemma KeySnoc(entries: seq<Entry>, e: Entry)
    ensures forall key :: HasKey(entries + [e], key) <==> HasKey(entries, key) || key == e.key
  {
    forall key ensures HasKey(entries + [e], key) <==> HasKey(entries, key) || key == e.key {
      if HasKey(entries, key) {
        var i :| 0 <= i < |entries| && entries[i].key == key;
        assert (entries + [e])[i].key == key;
      }
      if key == e.key {
        assert (entries + [e])[|entries|].key == key;
      }
    }
  }

  // ---------------------------------------------------------------- statements

  function Insert(id: nat, version: nat, e: Entry, now: Time): Row {
    Row(id, Some(version), e.payload, false, now, now)
  }

  function Overwrite(row: Row, version: nat, e: Entry, now: Time): Row {
    row.(version := Some(version), payload := e.payload, updatedAt := now)
  }

  /** INSERT ... VALUES (entries) ON CONFLICT (user_id, content_key) DO UPDATE ... WHERE NOT
      is_user_verified, row by row; `id` is the first of the generated ids and `touched` the
      keys this statement has already written. */
  function UpsertAll(table: Table, user: nat, version: nat, entries: seq<Entry>, id: nat, now: Time, touched: set<string>)
    : Result<Table, DbError>
    decreases |entries|
  {
    if entries == [] then Ok(table)
    else
      var e := entries[0];
      var k := (user, e.key);
      if k !in table then
        UpsertAll(table[k := Insert(id, version, e, now)], user, version, entries[1..], id + 1, now, touched + {e.key})
      else if table[k].verified then UpsertAll(table, user, version, entries[1..], id + 1, now, touched)
      else if e.key in touched then Err(CardinalityViolation)
      else
        UpsertAll(table[k := Overwrite(table[k], version, e, now)], user, version, entries[1..], id + 1, now,
                  touched + {e.key})
  }

  /** DELETE WHERE user, version and NOT is_user_verified match AND content_key NOT IN keep. */
  function DeleteStale(table: Table, user: nat, version: nat, keep: set<string>): Table {
    map k | k in table
      && !(k.0 == user && table[k].version == Some(version) && !table[k].verified && k.1 !in keep) :: table[k]
  }

  function DeleteForResume(table: Table, user: nat, versions: set<nat>): Table {
    map k | k in table
      && !(k.0 == user && table[k].version.Some? && table[k].version.value in versions) :: table[k]
  }

  function KeysOf(entries: seq<Entry>): set<string> {
    set i | 0 <= i < |entries| :: entries[i].key
  }

  /** What the pipeline does with one kind of entry found in one version of a resume. */
  function Reparse(table: Table, user: nat, version: nat, entries: seq<Entry>, id: nat, now: Time): Result<Table, DbError> {
    match UpsertAll(table, user, version, entries, id, now, {})
    case Err(error) => Err(error)
    case Ok(written) => Ok(DeleteStale(written, user, version, KeysOf(entries)))
  }

  // ---------------------------------------------------------------- what the upsert writes

  /** The row entry `i` leaves at its key, for a statement whose keys are distinct. */
  function Written(table: Table, user: nat, version: nat, entries: seq<Entry>, id: nat, now: Time, i: nat): Row
    requires i < |entries|
  {
    var k := (user, entries[i].key);
    if k !in table then Insert(id + i, version, entries[i], now)
    else if table[k].verified then table[k]
    else Overwrite(table[k], version, entries[i], now)
  }

  ghost predicate UpsertSpec(table: Table, user: nat, version: nat, entries: seq<Entry>, id: nat, now: Time, after: Table) {
    && (forall i | 0 <= i < |entries| ::
          (user, entries[i].key) in after
          && after[(user, entries[i].key)] == Written(table, user, version, entries, id, now, i))
    && (forall k: (nat, string) | k.0 != user || !HasKey(entries, k.1) ::
          (k in after <==> k in table) && (k in table ==> after[k] == table[k]))
  }

  lemma {:induction false} UpsertMeetsSpec(table: Table, user: nat, version: nat, entries: seq<Entry>, id: nat, now: Time, touched: set<string>)
    requires DistinctKeys(entries) && forall i | 0 <= i < |entries| :: entries[i].key !in touched
    ensures var r := UpsertAll(table, user, version, entries, id, now, touched);
            r.Ok? && UpsertSpec(table, user, version, entries, id, now, r.value)
    decreases |entries|
  {
    if entries != [] {
      var e, rest := entries[0], entries[1..];
      var k := (user, e.key);
      var table', touched' :=
        if k !in table then table[k := Insert(id, version, e, now)]
        else if table[k].verified then table
        else table[k := Overwrite(table[k], version, e, now)],
        if k in table && table[k].verified then touched else touched + {e.key};
      assert forall i | 0 <= i < |rest| :: rest[i] == entries[i + 1];
      UpsertMeetsSpec(table', user, version, rest, id + 1, now, touched');
      SpecCons(table, table', user, version, entries, id, now, UpsertAll(table', user, version, rest, id + 1, now, touched').value);
    }
  }

  /** One more entry in front: what it wrote is left alone by the rest. */
  lemma SpecCons(table: Table, table': Table, user: nat, version: nat, entries: seq<Entry>, id: nat, now: Time, after: Table)
    requires entries != [] && DistinctKeys(entries)
    requires table' == table[(user, entries[0].key) := Written(table, user, version, entries, id, now, 0)]
    requires UpsertSpec(table', user, version, entries[1..], id + 1, now, after)
    ensures UpsertSpec(table, user, version, entries, id, now, after)
  {
    var rest, k := entries[1..], (user, entries[0].key);
    assert forall i | 0 <= i < |rest| :: rest[i] == entries[i + 1] && rest[i].key != entries[0].key;
    assert !HasKey(rest, entries[0].key);
    assert k in after && after[k] == table'[k];
    forall i | 0 <= i < |entries|
      ensures (user, entries[i].key) in after
        && after[(user, entries[i].key)] == Written(table, user, version, entries, id, now, i)
    {
      if i > 0 {
        assert entries[i] == rest[i - 1];
      }
    }
    forall k': (nat, string) | k'.0 != user || !HasKey(entries, k'.1)
      ensures (k' in after <==> k' in table) && (k' in table ==> after[k'] == table[k'])
    {
      if k'.0 == user {
        assert entries[0].key != k'.1;
        assert !HasKey(rest, k'.1);
      }
    }
  }

  /** Two entries with one key that no verified row holds. */
  ghost predicate Clashes(table: Table, user: nat, entries: seq<Entry>, i: int, j: int) {
    && 0 <= i < j < |entries| && entries[i].key == entries[j].key
    && !((user, entries[i].key) in table && table[(user, entries[i].key)].verified)
  }

  /** The statement fails exactly when it would have to write one row twice. */
  lemma UpsertFailsExactly(table: Table, user: nat, version: nat, entries: seq<Entry>, id: nat, now: Time)
    ensures UpsertAll(table, user, version, entries, id, now, {}).Err? <==>
            exists i, j :: Clashes(table, user, entries, i, j)
  {
    FailsFrom(table, user, version, entries, id, now, {});
  }

  ghost predicate Retouches(table: Table, user: nat, entries: seq<Entry>, touched: set<string>, i: int) {
    0 <= i < |entries| && entries[i].key in touched && !((user, entries[i].key) in table && table[(user, entries[i].key)].verified)
  }

  lemma {:induction false} FailsFrom(table: Table, user: nat, version: nat, entries: seq<Entry>, id: nat, now: Time, touched: set<string>)
    requires forall key | key in touched :: (user, key) in table && !table[(user, key)].verified
    ensures UpsertAll(table, user, version, entries, id, now, touched).Err? <==>
            (exists i, j :: Clashes(table, user, entries, i, j)) || (exists i :: Retouches(table, user, entries, touched, i))
    decreases |entries|
  {
    if entries != [] {
      var e, rest := entries[0], entries[1..];
      var k := (user, e.key);
      if k in table && !table[k].verified && e.key in touched {
        assert Retouches(table, user, entries, touched, 0);
      } else {
        var table', touched' :=
          if k !in table then table[k := Insert(id, version, e, now)]
          else if table[k].verified then table
          else table[k := Overwrite(table[k], version, e, now)],
          if k in table && table[k].verified then touched else touched + {e.key};
        FailsFrom(table', user, version, rest, id + 1, now, touched');
        // Forwards: a failure in the rest is a failure here.
        if i, j :| Clashes(table', user, rest, i, j) {
          assert Clashes(table, user, entries, i + 1, j + 1);
        } else if i :| Retouches(table', user, rest, touched', i) {
          assert rest[i] == entries[i + 1];
          if rest[i].key == e.key {
            assert Clashes(table, user, entries, 0, i + 1);
          } else {
            assert Retouches(table, user, entries, touched, i + 1);
          }
        }
        // Backwards: a failure here that is not at the first entry is one in the rest.
        if i, j :| Clashes(table, user, entries, i, j) {
          assert entries[j] == rest[j - 1];
          if i == 0 {
            assert Retouches(table', user, rest, touched', j - 1);
          } else {
            assert Clashes(table', user, rest, i - 1, j - 1);
          }
        }
        if i :| Retouches(table, user, entries, touched, i) {
          if i == 0 {
            assert false;
          } else {
            assert Retouches(table', user, rest, touched', i - 1);
          }
        }
      }
    }
  }

  // ---------------------------------------------------------------- the re-parse theorem

  ghost predicate HeldByUser(table: Table, k: (nat, string)) {
    k in table && table[k].verified
  }

  /** The unverified rows one version of a user's resume accounts for. */
  ghost predicate FromVersion(table: Table, k: (nat, string), user: nat, version: nat) {
    k in table && k.0 == user && table[k].version == Some(version) && !table[k].verified
  }

  /** Everything a re-parse does, for every key of the table. */
  lemma ReparseExactly(table: Table, user: nat, version: nat, entries: seq<Entry>, id: nat, now: Time)
    requires DistinctKeys(entries)
    ensures var r := Reparse(table, user, version, entries, id, now);
            && r.Ok?
            // A verified row, and every row of another user, is untouched.
            && (forall k: (nat, string) | HeldByUser(table, k) || k.0 != user ::
                  (k in r.value <==> k in table) && (k in table ==> r.value[k] == table[k]))
            // The version now accounts for exactly the extracted keys the user does not hold.
            && (forall key :: FromVersion(r.value, (user, key), user, version) <==>
                  HasKey(entries, key) && !HeldByUser(table, (user, key)))
            // Those rows carry what was extracted; an existing row keeps its identity.
            && (forall i | 0 <= i < |entries| && !HeldByUser(table, (user, entries[i].key)) ::
                  var k := (user, entries[i].key);
                  k in r.value && r.value[k].payload == entries[i].payload && r.value[k].updatedAt == now
                  && (k in table ==> r.value[k].id == table[k].id && r.value[k].createdAt == table[k].createdAt)
                  && (k !in table ==> r.value[k] == Row(id + i, Some(version), entries[i].payload, false, now, now)))
            // What an earlier parse of the version found and this one does not is gone.
            && (forall key | !HasKey(entries, key) && FromVersion(table, (user, key), user, version) ::
                  (user, key) !in r.value)
            // Other documents' rows are untouched unless this one also produced them.
            && (forall key | !HasKey(entries, key) && !FromVersion(table, (user, key), user, version) ::
                  ((user, key) in r.value <==> (user, key) in table)
                  && ((user, key) in table ==> r.value[(user, key)] == table[(user, key)]))
  {
    UpsertMeetsSpec(table, user, version, entries, id, now, {});
    ReparseLeavesOthers(table, user, version, entries, id, now);
    var written := UpsertAll(table, user, version, entries, id, now, {}).value;
    var after := DeleteStale(written, user, version, KeysOf(entries));
    forall key ensures FromVersion(after, (user, key), user, version) <==> HasKey(entries, key) && !HeldByUser(table, (user, key)) {
      if HasKey(entries, key) {
        var i :| 0 <= i < |entries| && entries[i].key == key;
        assert written[(user, entries[i].key)] == Written(table, user, version, entries, id, now, i);
      }
    }
  }

  lemma ReparseLeavesOthers(table: Table, user: nat, version: nat, entries: seq<Entry>, id: nat, now: Time)
    requires DistinctKeys(entries)
    ensures var r := Reparse(table, user, version, entries, id, now);
            && r.Ok?
            && (forall k: (nat, string) | HeldByUser(table, k) || k.0 != user ::
                  (k in r.value <==> k in table) && (k in table ==> r.value[k] == table[k]))
  {
    UpsertMeetsSpec(table, user, version, entries, id, now, {});
    var written := UpsertAll(table, user, version, entries, id, now, {}).value;
    var after := DeleteStale(written, user, version, KeysOf(entries));
    forall k: (nat, string) | HeldByUser(table, k) || k.0 != user
      ensures (k in after <==> k in table) && (k in table ==> after[k] == table[k])
    {
      if k.0 == user && HasKey(entries, k.1) {
        var i :| 0 <= i < |entries| && entries[i].key == k.1;
        assert written[(user, entries[i].key)] == Written(table, user, version, entries, id, now, i);
      }
    }
  }

  /** Equal apart from ids and timestamps. */
  ghost predicate SameContent(a: Table, b: Table) {
    && a.Keys == b.Keys
    && forall k | k in a :: a[k].version == b[k].version && a[k].payload == b[k].payload && a[k].verified == b[k].verified
  }

  /** Parsing the same document again changes nothing but timestamps. */
  lemma ReparseIdempotent(table: Table, user: nat, version: nat, entries: seq<Entry>, id: nat, now: Time, id': nat, later: Time)
    requires DistinctKeys(entries)
    ensures var once := Reparse(table, user, version, entries, id, now);
            && once.Ok?
            && var twice := Reparse(once.value, user, version, entries, id', later);
               twice.Ok? && SameContent(once.value, twice.value)
               && forall k | k in once.value :: twice.value[k].id == once.value[k].id
  {
    ReparseExactly(table, user, version, entries, id, now);
    var once := Reparse(table, user, version, entries, id, now).value;
    ReparseExactly(once, user, version, entries, id', later);
    var twice := Reparse(once, user, version, entries, id', later).value;
    forall k: (nat, string)
      ensures k in once <==> k in twice
      ensures k in once ==> once[k].(updatedAt := 0) == twice[k].(updatedAt := 0)
    {
      if k.0 == user && !HeldByUser(once, k) {
        assert k == (user, k.1);
        assert FromVersion(once, (user, k.1), user, version) <==> HasKey(entries, k.1) && !HeldByUser(table, k);
        assert FromVersion(twice, (user, k.1), user, version) <==> HasKey(entries, k.1);
        if HasKey(entries, k.1) {
          var i :| 0 <= i < |entries| && entries[i].key == k.1;
          assert once[(user, entries[i].key)].payload == entries[i].payload;
          assert twice[(user, entries[i].key)].payload == entries[i].payload;
        }
      }
    }
  }

  /** Provenance decides what leaves with a resume, not whether the user confirmed it. */
  lemma ResumeLeavesWithItsRows(table: Table, user: nat, versions: set<nat>, k: (nat, string))
    ensures var after := DeleteForResume(table, user, versions);
            && (k in after <==> k in table && (k.0 != user || table[k].version.None? || table[k].version.value !in versions))
            && (k in after ==> after[k] == table[k])
  {
  }

  // ---------------------------------------------------------------- runs

  /** Everything that writes these rows. An edit that breaks the date rules is not accepted. */
  datatype Op =
    | Parse(user: nat, version: nat, found: seq<Entry>, now: Time)
    | Create(user: nat, key: string, payload: string, now: Time)
    | Edit(user: nat, key: string, payload: string, accepted: bool, now: Time)
    | Delete(user: nat, key: string)
    | DeleteResume(user: nat, versions: set<nat>)

  /** The table after one operation; `id` is the next generated id. A refused one changes
      nothing. An edit keeps the content key. */
  function After(table: Table, id: nat, op: Op): Table {
    match op
    case Parse(user, version, found, now) =>
      (match Reparse(table, user, version, Deduped(found), id, now) case Ok(t) => t case Err(_) => table)
    case Create(user, key, payload, now) =>
      if (user, key) in table then table else table[(user, key) := Row(id, None, payload, true, now, now)]
    case Edit(user, key, payload, accepted, now) =>
      var k := (user, key);
      if k in table && accepted then table[k := table[k].(payload := payload, verified := true, updatedAt := now)]
      else table
    case Delete(user, key) => table - {(user, key)}
    case DeleteResume(user, versions) => DeleteForResume(table, user, versions)
  }

  function IdsUsed(op: Op): nat {
    if op.Parse? then |op.found| else 1
  }

  function Run(table: Table, next: nat, ops: seq<Op>): Table
    decreases |ops|
  {
    if ops == [] then table else Run(After(table, next, ops[0]), next + IdsUsed(ops[0]), ops[1..])
  }

  /** The rows at every other key are as they were. */
  ghost predicate OnlyAt(before: Table, after: Table, k: (nat, string)) {
    forall j: (nat, string) | j != k :: (j in after <==> j in before) && (j in before ==> after[j] == before[j])
  }

  /** An accepted edit of a stored row, extracted or not, writes the content and makes the row the
      user's; identity, provenance and key stay. Any other edit changes nothing. */
  lemma EditExactly(table: Table, id: nat, op: Op)
    requires op.Edit?
    ensures var k, after := (op.user, op.key), After(table, id, op);
            if k in table && op.accepted then
              && OnlyAt(table, after, k) && k in after
              && after[k] == Row(table[k].id, table[k].version, op.payload, true, table[k].createdAt, op.now)
            else after == table
  {
  }

  /** An addition stores a row of the user's own, of no resume, unless the key is taken; a
      deletion removes the row. */
  lemma AddAndDeleteExactly(table: Table, id: nat, op: Op)
    requires op.Create? || op.Delete?
    ensures var k, after := (op.user, op.key), After(table, id, op);
            && OnlyAt(table, after, k)
            && (op.Delete? ==> k !in after)
            && (op.Create? && k in table ==> after == table)
            && (op.Create? && k !in table ==> k in after && after[k] == Row(id, None, op.payload, true, op.now, op.now))
  {
  }

  /** An accepted edit of the row at `k`. */
  predicate Edits(op: Op, k: (nat, string)) {
    op.Edit? && op.accepted && (op.user, op.key) == k
  }

  /** What the user last wrote at `k`, if anything; else what was there. */
  function LastWritten(ops: seq<Op>, k: (nat, string), payload: string): string
    decreases |ops|
  {
    if ops == [] then payload else LastWritten(ops[1..], k, if Edits(ops[0], k) then ops[0].payload else payload)
  }

  /** The only two ways a row the user has asserted can go. */
  predicate Removes(op: Op, k: (nat, string), version: Option<nat>) {
    match op
    case Delete(user, key) => (user, key) == k
    case DeleteResume(user, versions) => user == k.0 && version.Some? && version.value in versions
    case _ => false
  }

  lemma AssertedKept(table: Table, id: nat, op: Op, k: (nat, string))
    requires HeldByUser(table, k) && !Removes(op, k, table[k].version)
    ensures var after := After(table, id, op);
            && HeldByUser(after, k) && after[k].version == table[k].version
            && after[k].id == table[k].id && after[k].createdAt == table[k].createdAt
            && after[k].payload == if Edits(op, k) then op.payload else table[k].payload
  {
    if op.Parse? {
      ReparseExactly(table, op.user, op.version, Deduped(op.found), id, op.now);
    }
  }

  /** A row the user has asserted outlives any number of re-parses, of this or any other
      document, holding exactly what the user last wrote, until the user or the deletion of its
      own resume removes it. A row added by hand came from no resume. */
  lemma {:induction false} AssertedHolds(table: Table, next: nat, ops: seq<Op>, k: (nat, string))
    requires HeldByUser(table, k) && forall i | 0 <= i < |ops| :: !Removes(ops[i], k, table[k].version)
    ensures var after := Run(table, next, ops);
            && HeldByUser(after, k) && after[k].version == table[k].version
            && after[k].id == table[k].id && after[k].createdAt == table[k].createdAt
            && after[k].payload == LastWritten(ops, k, table[k].payload)
    decreases |ops|
  {
    if ops != [] {
      AssertedKept(table, next, ops[0], k);
      AssertedHolds(After(table, next, ops[0]), next + IdsUsed(ops[0]), ops[1..], k);
    }
  }

  /** So what the user once wrote, over extracted text or from nothing, is what the row holds after
      any run that does not remove it, or what the user wrote there since. */
  lemma WhatTheUserWroteHolds(table: Table, next: nat, op: Op, ops: seq<Op>, k: (nat, string))
    requires (op.Create? || op.Edit?) && (op.user, op.key) == k
    requires (op.Create? && k !in table) || (op.Edit? && op.accepted && k in table)
    requires var version := if op.Create? then None else table[k].version;
             forall i | 0 <= i < |ops| :: !Removes(ops[i], k, version)
    ensures var after := Run(table, next, [op] + ops);
            HeldByUser(after, k) && after[k].payload == LastWritten(ops, k, op.payload)
  {
    if op.Create? {
      AddAndDeleteExactly(table, next, op);
    } else {
      EditExactly(table, next, op);
    }
    AssertedHolds(After(table, next, op), next + IdsUsed(op), ops, k);
    assert ([op] + ops)[1..] == ops;
  }

  ghost predicate Asserts(op: Op, k: (nat, string)) {
    (op.Create? && (op.user, op.key) == k) || Edits(op, k)
  }

  lemma AssertionNeeded(table: Table, id: nat, op: Op, k: (nat, string))
    requires HeldByUser(After(table, id, op), k)
    ensures HeldByUser(table, k) || Asserts(op, k)
  {
    if op.Parse? && !HeldByUser(table, k) {
      ParseAssertsNothing(table, op.user, op.version, Deduped(op.found), id, op.now, k);
    }
  }

  lemma ParseAssertsNothing(table: Table, user: nat, version: nat, entries: seq<Entry>, id: nat, now: Time, k: (nat, string))
    requires DistinctKeys(entries) && !HeldByUser(table, k)
    ensures var r := Reparse(table, user, version, entries, id, now);
            r.Ok? && !HeldByUser(r.value, k)
  {
    ReparseExactly(table, user, version, entries, id, now);
    var after := Reparse(table, user, version, entries, id, now).value;
    if k.0 == user {
      assert FromVersion(after, (user, k.1), user, version) <==> HasKey(entries, k.1);
    }
  }

  /** And nothing but the user makes a row the user's. */
  lemma {:induction false} OnlyTheUserAsserts(table: Table, next: nat, ops: seq<Op>, k: (nat, string))
    requires !HeldByUser(table, k) && HeldByUser(Run(table, next, ops), k)
    ensures exists i :: 0 <= i < |ops| && Asserts(ops[i], k)
    decreases |ops|
  {
    var after := After(table, next, ops[0]);
    if HeldByUser(after, k) {
      AssertionNeeded(table, next, ops[0], k);
    } else {
      OnlyTheUserAsserts(after, next + IdsUsed(ops[0]), ops[1..], k);
      var i :| 0 <= i < |ops| - 1 && Asserts(ops[1..][i], k);
      assert Asserts(ops[i + 1], k);
    }
  }

  lemma StaleRemoved(table: Table, user: nat, version: nat, keep: set<string>, stale: set<(nat, string)>)
    requires forall k :: k in stale <==>
               k in table && k.0 == user && table[k].version == Some(version) && !table[k].verified && k.1 !in keep
    ensures table - stale == DeleteStale(table, user, version, keep)
  {
  }

  // ---------------------------------------------------------------- the repository

  class CareerEntityRepository {
    var table: Table
    var next: nat

    constructor ()
      ensures table == map[] && next == 0
    {
      table := map[];
      next := 0;
    }

    /** Returns the number of rows offered, not the number written. */
    method UpsertFromExtraction(user: nat, version: nat, entries: seq<Entry>, now: Time) returns (r: Result<nat, DbError>)
      modifies this
      ensures r.Err? <==> exists i, j :: Clashes(old(table), user, entries, i, j)
      ensures r.Err? ==> table == old(table)
      ensures r.Ok? ==> r.value == |entries| && Ok(table) == UpsertAll(old(table), user, version, entries, old(next), now, {})
    {
      if entries == [] {
        return Ok(0);
      }
      UpsertFailsExactly(table, user, version, entries, next, now);
      var written := UpsertAll(table, user, version, entries, next, now, {});
      next := next + |entries|;
      if written.Err? {
        return Err(written.error);
      }
      table := written.value;
      r := Ok(|entries|);
    }

    /** Returns how many rows went. With nothing to keep, the key condition is left out. */
    method DeleteStaleRows(user: nat, version: nat, keepKeys: set<string>) returns (removed: nat)
      modifies this`table
      ensures table == DeleteStale(old(table), user, version, keepKeys)
      ensures removed == |old(table)| - |table|
    {
      var stale := set k | k in table && k.0 == user && table[k].version == Some(version) && !table[k].verified;
      if keepKeys != {} {
        stale := set k | k in stale && k.1 !in keepKeys;
      }
      removed := |stale|;
      RemovedCount(table, stale);
      StaleRemoved(table, user, version, keepKeys, stale);
      table := table - stale;
    }

    /** Upsert what this parse found, then drop what it no longer finds. */
    method StoreEntities(user: nat, version: nat, found: seq<Entry>, now: Time)
      modifies this
      ensures Ok(table) == Reparse(old(table), user, version, Deduped(found), old(next), now)
    {
      var entries := Deduplicate(found);
      UpsertMeetsSpec(table, user, version, entries, next, now, {});
      var offered := UpsertFromExtraction(user, version, entries, now);
      var removed := DeleteStaleRows(user, version, KeysOf(entries));
    }
  }
}
