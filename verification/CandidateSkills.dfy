/** A user's skills: extraction may add and refresh rows, but never overrules a decision. */
module CandidateSkills {
  import opened Prelude

  /** The table is keyed by its unique index (user, skill). */
  datatype Row = Row(confidence: Option<real>, version: Option<nat>, verified: bool, rejected: bool)

  type Table = map<(nat, nat), Row>

  /** confidence_is_fraction and verified_or_rejected_not_both */
  predicate Checks(row: Row) {
    && (row.confidence.Some? ==> 0.0 <= row.confidence.value <= 1.0)
    && !(row.verified && row.rejected)
  }

  datatype Error = NotFound | Duplicate | IntegrityError

  datatype Op =
    | Extract(user: nat, skill: nat, confidence: real, version: nat)
    | Confirm(user: nat, skill: nat)
    | Reject(user: nat, skill: nat)
    | Add(user: nat, skill: nat, source: Option<nat>)
    | DeleteResume(user: nat, versions: set<nat>)

  /** Any write of a row: the database refuses one that breaks a CHECK. */
  function Write(table: Table, k: (nat, nat), row: Row): Result<Table, Error> {
    if Checks(row) then Ok(table[k := row]) else Err(IntegrityError)
  }

  /** INSERT ... ON CONFLICT DO UPDATE ... WHERE NOT is_user_verified AND NOT is_rejected. The
      proposed row is checked before the conflict is looked for. */
  function Upsert(table: Table, user: nat, skill: nat, confidence: real, version: nat): Result<Table, Error> {
    var k := (user, skill);
    var proposed := Row(Some(confidence), Some(version), false, false);
    if !Checks(proposed) then Err(IntegrityError)
    else if k !in table then Write(table, k, proposed)
    else if !table[k].verified && !table[k].rejected then
      Write(table, k, table[k].(confidence := Some(confidence), version := Some(version)))
    else Ok(table)
  }

  function DeleteFor(table: Table, user: nat, versions: set<nat>): Table {
    map k | k in table && !(k.0 == user && table[k].version.Some? && table[k].version.value in versions) :: table[k]
  }

  /** Each operation is one transaction: an error leaves the table alone. */
  function Step(table: Table, op: Op): Result<Table, Error> {
    match op
    case Extract(user, skill, confidence, version) => Upsert(table, user, skill, confidence, version)
    case Confirm(user, skill) =>
      var k := (user, skill);
      if k !in table then Err(NotFound) else Write(table, k, table[k].(verified := true))
    case Reject(user, skill) =>
      var k := (user, skill);
      if k !in table then Err(NotFound) else Write(table, k, table[k].(rejected := true, verified := false))
    case Add(user, skill, source) =>
      var k := (user, skill);
      if k in table then
        if table[k].rejected then Write(table, k, table[k].(rejected := false, verified := true, version := None))
        else Err(Duplicate)
      else Write(table, k, Row(None, source, true, false))
    case DeleteResume(user, versions) => Ok(DeleteFor(table, user, versions))
  }

  function After(table: Table, op: Op): Table {
    match Step(table, op) case Ok(t) => t case Err(_) => table
  }

  function Run(table: Table, ops: seq<Op>): Table
    decreases |ops|
  {
    if ops == [] then table else Run(After(table, ops[0]), ops[1..])
  }

  /** What the profile shows. */
  function Listed(table: Table, user: nat): set<nat> {
    set k | k in table && k.0 == user && !table[k].rejected :: k.1
  }

  // ---------------------------------------------------------------- invariants

  ghost predicate Valid(table: Table) {
    forall k | k in table :: Checks(table[k])
  }

  lemma {:induction false} RunKeepsValid(table: Table, ops: seq<Op>)
    requires Valid(table)
    ensures Valid(Run(table, ops))
    decreases |ops|
  {
    if ops != [] {
      RunKeepsValid(After(table, ops[0]), ops[1..]);
    }
  }

  /** Which operations the database refuses, after any run from the empty table: extraction with
      a confidence that is no fraction, and an edit of a skill the user has removed. The edit
      handler does not look at the removal, so its write breaks the CHECK. */
  lemma RefusedExactly(ops: seq<Op>, op: Op)
    ensures var table := Run(map[], ops);
            Step(table, op) == Err(IntegrityError) <==>
              || (op.Extract? && !(0.0 <= op.confidence <= 1.0))
              || (op.Confirm? && (op.user, op.skill) in table && table[(op.user, op.skill)].rejected)
  {
    RunKeepsValid(map[], ops);
  }

  /** For instance: extract a skill, remove it, edit it. */
  lemma EditAfterRemovalRefused(user: nat, skill: nat, confidence: real, version: nat)
    requires 0.0 <= confidence <= 1.0
    ensures var ops := [Extract(user, skill, confidence, version), Reject(user, skill)];
            && Step(Run(map[], ops), Confirm(user, skill)) == Err(IntegrityError)
            && After(Run(map[], ops), Confirm(user, skill)) == Run(map[], ops)
  {
    var ops := [Extract(user, skill, confidence, version), Reject(user, skill)];
    assert ops[1..] == [Reject(user, skill)] && ops[1..][1..] == [];
    var extracted: Table := map[(user, skill) := Row(Some(confidence), Some(version), false, false)];
    assert After(map[], ops[0]) == extracted;
    assert Run(map[], ops) == Run(extracted, ops[1..]) == Run(After(extracted, ops[1]), []);
  }

  /** A row the user has ruled on, either way. */
  ghost predicate Decided(table: Table, k: (nat, nat)) {
    k in table && (table[k].verified || table[k].rejected)
  }

  /** Extraction writes its own row unless that row is decided, and no other row ever. */
  lemma ExtractionDefers(table: Table, user: nat, skill: nat, confidence: real, version: nat)
    requires Valid(table)
    ensures var k := (user, skill);
            var after := After(table, Extract(user, skill, confidence, version));
            && (forall j | j in table && (j != k || Decided(table, j)) :: j in after && after[j] == table[j])
            && after.Keys <= table.Keys + {k}
            && (0.0 <= confidence <= 1.0 && !Decided(table, k) <==>
                  Step(table, Extract(user, skill, confidence, version)) == Ok(table[k := Row(Some(confidence), Some(version), false, false)]))
  {
    var k := (user, skill);
    if Decided(table, k) {
      var written := table[k := Row(Some(confidence), Some(version), false, false)];
      assert written[k] != table[k];
    }
  }

  /** The operations that may end a rejection: adding the skill back, or deleting the resume
      the row came from. */
  ghost predicate Lifts(op: Op, k: (nat, nat), row: Row) {
    match op
    case Add(user, skill, _) => (user, skill) == k
    case DeleteResume(user, versions) => user == k.0 && row.version.Some? && row.version.value in versions
    case _ => false
  }

  /** A removed skill stays removed, exactly as it was, through any run that does neither. */
  lemma {:induction false} RejectionHolds(table: Table, ops: seq<Op>, k: (nat, nat))
    requires Valid(table) && k in table && table[k].rejected
    requires forall i | 0 <= i < |ops| :: !Lifts(ops[i], k, table[k])
    ensures var after := Run(table, ops);
            k in after && after[k] == table[k] && k.1 !in Listed(after, k.0)
    decreases |ops|
  {
    if ops != [] {
      assert !Lifts(ops[0], k, table[k]);
      var after := After(table, ops[0]);
      assert k in after && after[k] == table[k];
      RejectionHolds(after, ops[1..], k);
    }
  }

  /** And each of the two does end it: adding back lists the skill again with its provenance
      dropped, so that no resume deletion can take it away; deletion forgets the decision. */
  lemma RejectionLifts(table: Table, op: Op, k: (nat, nat), versions: set<nat>)
    requires Valid(table) && k in table && table[k].rejected && Lifts(op, k, table[k])
    ensures op.DeleteResume? ==> k !in After(table, op)
    ensures op.Add? ==>
      var after := After(table, op);
      && k.1 in Listed(after, k.0) && k in after && after[k].verified
      && k.1 in Listed(After(after, DeleteResume(k.0, versions)), k.0)
  {
    var after := After(table, op);
    if op.Add? {
      assert k in after && !after[k].rejected && after[k].version.None?;
      assert k in After(after, DeleteResume(k.0, versions));
    }
  }

  /** A confirmed skill is only changed by the user or by deleting the resume it came from. */
  ghost predicate Unsettles(op: Op, k: (nat, nat), row: Row) {
    match op
    case Reject(user, skill) => (user, skill) == k
    case DeleteResume(user, versions) => user == k.0 && row.version.Some? && row.version.value in versions
    case _ => false
  }

  lemma {:induction false} ConfirmationHolds(table: Table, ops: seq<Op>, k: (nat, nat))
    requires Valid(table) && k in table && table[k].verified
    requires forall i | 0 <= i < |ops| :: !Unsettles(ops[i], k, table[k])
    ensures var after := Run(table, ops);
            k in after && after[k] == table[k] && k.1 in Listed(after, k.0)
    decreases |ops|
  {
    if ops != [] {
      assert !Unsettles(ops[0], k, table[k]);
      var after := After(table, ops[0]);
      assert k in after && after[k] == table[k];
      ConfirmationHolds(after, ops[1..], k);
    }
  }

  // ---------------------------------------------------------------- each operation

  /** What the user's own operations answer and write: one row, or nothing. */
  lemma UserExactly(table: Table, op: Op)
    requires Valid(table) && (op.Confirm? || op.Reject? || op.Add?)
    ensures var k := (op.user, op.skill);
            if k !in table then
              if op.Add? then Step(table, op) == Ok(table[k := Row(None, op.source, true, false)]) else Step(table, op) == Err(NotFound)
            else
              var row := table[k];
              match op
              case Confirm(_, _) =>
                Step(table, op) == if row.rejected then Err(IntegrityError)
                                   else Ok(table[k := Row(row.confidence, row.version, true, false)])
              case Reject(_, _) => Step(table, op) == Ok(table[k := Row(row.confidence, row.version, false, true)])
              case Add(_, _, _) =>
                Step(table, op) == if row.rejected then Ok(table[k := Row(row.confidence, None, true, false)]) else Err(Duplicate)
  {
    var k := (op.user, op.skill);
    if k in table {
      assert Checks(table[k]);
    }
  }

  /** Deleting a resume takes exactly the user's rows that came from it. */
  lemma DeletionExactly(table: Table, user: nat, versions: set<nat>, k: (nat, nat))
    ensures var after := After(table, DeleteResume(user, versions));
            && (k in after <==> k in table && !(k.0 == user && exists v :: v in versions && table[k].version == Some(v)))
            && (k in after ==> after[k] == table[k])
  {
  }

  /** A skill the user confirms or adds is listed, and stays exactly so through any run that
      neither removes it nor deletes the resume it came from. */
  lemma AssertedStaysListed(table: Table, op: Op, ops: seq<Op>)
    requires Valid(table) && (op.Confirm? || op.Add?) && Step(table, op).Ok?
    requires var k := (op.user, op.skill);
             var after := After(table, op);
             k in after ==> forall i | 0 <= i < |ops| :: !Unsettles(ops[i], k, after[k])
    ensures var k := (op.user, op.skill);
            var after := After(table, op);
            && k in after && after[k].verified
            && k in Run(after, ops) && Run(after, ops)[k] == after[k] && op.skill in Listed(Run(after, ops), op.user)
  {
    UserExactly(table, op);
    var after := After(table, op);
    assert Valid(after) by {
      assert Run(table, [op]) == Run(after, []);
      RunKeepsValid(table, [op]);
    }
    ConfirmationHolds(after, ops, (op.user, op.skill));
  }

  // ---------------------------------------------------------------- the repository

  class CandidateSkillRepository {
    var table: Table

    constructor ()
      ensures table == map[]
    {
      table := map[];
    }

    /** True if a row was inserted or updated. */
    method UpsertFromExtraction(user: nat, skill: nat, confidence: real, version: nat) returns (r: Result<bool, Error>)
      requires Valid(table)
      modifies this
      ensures Valid(table) && table == After(old(table), Extract(user, skill, confidence, version))
      ensures r.Err? <==> !(0.0 <= confidence <= 1.0)
      ensures r == Ok(true) <==> 0.0 <= confidence <= 1.0 && !Decided(old(table), (user, skill))
    {
      var k := (user, skill);
      if !Checks(Row(Some(confidence), Some(version), false, false)) {
        return Err(IntegrityError);
      }
      if k !in table {
        table := table[k := Row(Some(confidence), Some(version), false, false)];
        return Ok(true);
      }
      if table[k].verified || table[k].rejected {
        return Ok(false);
      }
      table := table[k := table[k].(confidence := Some(confidence), version := Some(version))];
      r := Ok(true);
    }

    /** Records the removal rather than dropping the row. */
    method Reject(user: nat, skill: nat)
      requires Valid(table) && (user, skill) in table
      modifies this
      ensures Valid(table) && Ok(table) == Step(old(table), Op.Reject(user, skill))
      ensures skill !in Listed(table, user)
    {
      var k := (user, skill);
      table := table[k := table[k].(rejected := true)];
      table := table[k := table[k].(verified := false)];
      assert table == old(table)[k := old(table)[k].(rejected := true, verified := false)];
    }

    method ListForUser(user: nat) returns (skills: set<nat>)
      ensures forall skill :: skill in skills <==> (user, skill) in table && !table[(user, skill)].rejected
    {
      skills := set k | k in table && k.0 == user && !table[k].rejected :: k.1;
    }

    /** Returns how many rows went, decided or not. */
    method DeleteForResume(user: nat, versions: set<nat>) returns (removed: nat)
      requires Valid(table)
      modifies this
      ensures Valid(table) && table == DeleteFor(old(table), user, versions)
      ensures removed == |old(table)| - |table|
    {
      var sourced := set k | k in table && k.0 == user && table[k].version.Some? && table[k].version.value in versions;
      removed := |sourced|;
      RemovedCount(table, sourced);
      assert table - sourced == DeleteFor(table, user, versions);
      table := table - sourced;
    }
  }
}
