/** Caps kept under an advisory lock: at most max_respondents responses per form
    (backend/app/repositories/form_repo.py, insert_response) and at most MAX_CO_AUTHORS_PER_POST open
    or accepted co-authors per post (backend/app/services/co_author.py).

    Transactions interleave statement by statement. A statement sees committed rows only; what a
    transaction writes becomes visible when it commits, and its advisory lock is held until then.
    Which lock an entity maps to is an arbitrary function, so lock keys may collide. */
module AdvisoryCaps {
  import opened Basics

  type RowId = nat
  type TxId = nat
  type UserId = nat
  type LockId = nat

  const MAX_CO_AUTHORS_PER_POST: nat := 10

  // The entity whose rows are counted. The maximum of a form is fixed.
  datatype Target = Form(formId: nat, maxRespondents: nat) | Post(postId: nat) {
    function Cap(): nat {
      match this
      case Form(_, max) => max
      case Post(_) => MAX_CO_AUTHORS_PER_POST
    }
  }

  datatype Status = PENDING | ACCEPTED | REJECTED

  // A response (status ACCEPTED) or a co-author entry; user is None for guests and external authors.
  datatype Row = Row(target: Target, user: Option<UserId>, status: Status)

  type Table = map<RowId, Row>

  predicate Open(r: Row) {
    r.status == PENDING || r.status == ACCEPTED
  }

  function OpenRows(t: Table, target: Target): set<RowId> {
    set id | id in t && t[id].target == target && Open(t[id])
  }

  // SELECT COUNT(*) .. WHERE status IN ('PENDING', 'ACCEPTED')
  function Count(t: Table, target: Target): nat {
    |OpenRows(t, target)|
  }

  datatype Phase =
    | Waiting                                            // for the lock
    | Locked
    | Admitted                                           // counted fewer rows than the cap
    | Written(id: RowId, row: Row, replaced: Option<RowId>)  // INSERT done, REJECTED entry deleted

  datatype Tx = Tx(target: Target, phase: Phase)

  // used: every row id handed out so far; uuids are never handed out twice.
  datatype Db = Db(rows: Table, locks: map<LockId, TxId>, txs: map<TxId, Tx>, used: set<RowId>)

  const EMPTY: Db := Db(map[], map[], map[], {})

  datatype Command =
    | Begin(tx: TxId, target: Target)
    | Acquire(tx: TxId)                        // pg_advisory_xact_lock
    | Admit(tx: TxId)
    | Write(tx: TxId, id: RowId, row: Row, replaced: Option<RowId>)
    | Commit(tx: TxId)
    | Rollback(tx: TxId)
    | Respond(id: RowId, accept: bool)         // respond_to_invitation
    | Remove(id: RowId)                        // remove_co_author, leave_co_authorship

  type LockMap = Target -> LockId

  function Release(lockOf: LockMap, db: Db, tx: TxId): Db
    requires tx in db.txs
  {
    var key := lockOf(db.txs[tx].target);
    db.(txs := db.txs - {tx},
        locks := if key in db.locks && db.locks[key] == tx then db.locks - {key} else db.locks)
  }

  // The table after a transaction's writes.
  function AfterWrite(t: Table, phase: Phase): Table
    requires phase.Written?
  {
    (if phase.replaced.Some? then t - {phase.replaced.value} else t)[phase.id := phase.row]
  }

  predicate SameEntry(a: Row, b: Row) {
    a.target == b.target && a.user.Some? && a.user == b.user
  }

  // The row takes the place of a rejected entry of the same user.
  predicate Supersedes(row: Row, earlier: Row) {
    SameEntry(earlier, row) && earlier.status == REJECTED
  }

  predicate Legal(lockOf: LockMap, db: Db, c: Command) {
    match c
    case Begin(tx, _) => tx !in db.txs
    case Acquire(tx) => tx in db.txs && db.txs[tx].phase == Waiting && lockOf(db.txs[tx].target) !in db.locks
    case Admit(tx) => tx in db.txs && db.txs[tx].phase == Locked && Count(db.rows, db.txs[tx].target) < db.txs[tx].target.Cap()
    case Write(tx, id, row, replaced) =>
      && tx in db.txs && db.txs[tx].phase == Admitted && row.target == db.txs[tx].target && Open(row)
      && id !in db.used
      && (forall r <- db.rows :: SameEntry(db.rows[r], row) ==> replaced == Some(r))
      && (replaced.Some? ==> replaced.value in db.rows && Supersedes(row, db.rows[replaced.value]))
    case Commit(tx) => tx in db.txs && db.txs[tx].phase.Written?
    case Rollback(tx) => tx in db.txs
    case Respond(id, _) => id in db.rows && db.rows[id].status == PENDING
    case Remove(id) => id in db.rows
  }

  // A command that is not legal does nothing.
  function Apply(lockOf: LockMap, db: Db, c: Command): Db {
    if !Legal(lockOf, db, c) then db else
    match c
    case Begin(tx, target) => db.(txs := db.txs[tx := Tx(target, Waiting)])
    case Acquire(tx) =>
      db.(locks := db.locks[lockOf(db.txs[tx].target) := tx], txs := db.txs[tx := Tx(db.txs[tx].target, Locked)])
    case Admit(tx) => db.(txs := db.txs[tx := Tx(db.txs[tx].target, Admitted)])
    case Write(tx, id, row, replaced) =>
      db.(txs := db.txs[tx := Tx(db.txs[tx].target, Written(id, row, replaced))], used := db.used + {id})
    case Commit(tx) => Release(lockOf, db.(rows := AfterWrite(db.rows, db.txs[tx].phase)), tx)
    case Rollback(tx) => Release(lockOf, db, tx)
    case Respond(id, accept) => db.(rows := db.rows[id := db.rows[id].(status := if accept then ACCEPTED else REJECTED)])
    case Remove(id) => db.(rows := db.rows - {id})
  }

  // ---- Invariant ----

  ghost predicate HoldersHold(lockOf: LockMap, db: Db) {
    forall x <- db.txs :: !db.txs[x].phase.Waiting? ==>
      lockOf(db.txs[x].target) in db.locks && db.locks[lockOf(db.txs[x].target)] == x
  }

  ghost predicate CapsKept(db: Db) {
    && (forall t: Target :: Count(db.rows, t) <= t.Cap())
    && (forall x <- db.txs :: db.txs[x].phase.Admitted? || db.txs[x].phase.Written? ==>
          Count(db.rows, db.txs[x].target) < db.txs[x].target.Cap())
  }

  // A user has at most one entry per target, and a pending insert clashes at most with what it replaces.
  ghost predicate EntriesUnique(db: Db) {
    && (forall a <- db.rows, b <- db.rows :: SameEntry(db.rows[a], db.rows[b]) ==> a == b)
    && (forall x <- db.txs :: db.txs[x].phase.Written? ==> PendingOk(db.rows, db.txs[x]))
  }

  ghost predicate PendingOk(rows: Table, tx: Tx)
    requires tx.phase.Written?
  {
    var p := tx.phase;
    && p.row.target == tx.target
    && p.id !in rows
    && (forall r <- rows :: SameEntry(rows[r], p.row) ==> p.replaced == Some(r))
    && (p.replaced.Some? && p.replaced.value in rows ==> Supersedes(p.row, rows[p.replaced.value]))
    && Open(p.row)
  }

  ghost predicate FreshIds(db: Db) {
    && db.rows.Keys <= db.used
    && (forall x <- db.txs :: db.txs[x].phase.Written? ==> db.txs[x].phase.id in db.used)
    && (forall x <- db.txs, y <- db.txs ::
          db.txs[x].phase.Written? && db.txs[y].phase.Written? ==>
            && db.txs[x].phase.replaced != Some(db.txs[y].phase.id)
            && (db.txs[x].phase.id == db.txs[y].phase.id ==> x == y))
    && (forall x <- db.txs :: db.txs[x].phase.Written? && db.txs[x].phase.replaced.Some? ==>
          db.txs[x].phase.replaced.value in db.used)
  }

  ghost predicate Inv(lockOf: LockMap, db: Db) {
    HoldersHold(lockOf, db) && CapsKept(db) && EntriesUnique(db) && FreshIds(db)
  }

  lemma SubsetCount(a: Table, b: Table, target: Target)
    requires OpenRows(a, target) <= OpenRows(b, target)
    ensures Count(a, target) <= Count(b, target)
  {
    SubsetSize(OpenRows(a, target), OpenRows(b, target));
  }

  // A commit adds one open row to its own target and none to any other.
  lemma CommitCounts(t: Table, phase: Phase, target: Target)
    requires phase.Written? && phase.id !in t
    requires phase.replaced.Some? && phase.replaced.value in t ==> !Open(t[phase.replaced.value])
    ensures Count(AfterWrite(t, phase), target) <= Count(t, target) + if phase.row.target == target then 1 else 0
  {
    var after := OpenRows(AfterWrite(t, phase), target);
    if phase.row.target == target {
      SubsetSize(after - {phase.id}, OpenRows(t, target));
    } else {
      SubsetSize(after, OpenRows(t, target));
    }
  }

  // Two transactions that both got past the lock work on different targets.
  lemma HoldersDiffer(lockOf: LockMap, db: Db, x: TxId, y: TxId)
    requires HoldersHold(lockOf, db) && x in db.txs && y in db.txs && x != y
    requires !db.txs[x].phase.Waiting? && !db.txs[y].phase.Waiting?
    ensures db.txs[x].target != db.txs[y].target
  {
  }

  lemma StepKeepsHolders(lockOf: LockMap, db: Db, c: Command)
    requires HoldersHold(lockOf, db)
    ensures HoldersHold(lockOf, Apply(lockOf, db, c))
  {
  }

  lemma StepKeepsFresh(lockOf: LockMap, db: Db, c: Command)
    requires Inv(lockOf, db)
    ensures FreshIds(Apply(lockOf, db, c))
  {
  }

  // Responses and removals never add an open row.
  lemma OthersNeverAdd(lockOf: LockMap, db: Db, c: Command, t: Target)
    requires Legal(lockOf, db, c) && !c.Commit?
    ensures Count(Apply(lockOf, db, c).rows, t) <= Count(db.rows, t)
  {
    SubsetCount(Apply(lockOf, db, c).rows, db.rows, t);
  }

  lemma StepKeepsCaps(lockOf: LockMap, db: Db, c: Command)
    requires Inv(lockOf, db)
    ensures CapsKept(Apply(lockOf, db, c))
  {
    if Legal(lockOf, db, c) {
      var next := Apply(lockOf, db, c);
      if c.Commit? {
        var mine := db.txs[c.tx];
        forall t: Target
          ensures Count(next.rows, t) <= t.Cap()
        {
          CommitCounts(db.rows, mine.phase, t);
        }
        forall x <- next.txs | next.txs[x].phase.Admitted? || next.txs[x].phase.Written?
          ensures Count(next.rows, next.txs[x].target) < next.txs[x].target.Cap()
        {
          HoldersDiffer(lockOf, db, x, c.tx);
          CommitCounts(db.rows, mine.phase, next.txs[x].target);
        }
      } else {
        forall t: Target
          ensures Count(next.rows, t) <= Count(db.rows, t)
        {
          OthersNeverAdd(lockOf, db, c, t);
        }
      }
    }
  }

  lemma CommitKeepsUnique(lockOf: LockMap, db: Db, tx: TxId)
    requires Inv(lockOf, db) && Legal(lockOf, db, Commit(tx))
    ensures EntriesUnique(Apply(lockOf, db, Commit(tx)))
  {
    var next := Apply(lockOf, db, Commit(tx));
    var p := db.txs[tx].phase;
    assert PendingOk(db.rows, db.txs[tx]);
    forall x <- next.txs | next.txs[x].phase.Written?
      ensures PendingOk(next.rows, next.txs[x])
    {
      HoldersDiffer(lockOf, db, x, tx);
      assert PendingOk(db.rows, db.txs[x]);
    }
  }

  // The same entry, and open at most if it was before.
  predicate LessOpen(later: Row, earlier: Row) {
    later.target == earlier.target && later.user == earlier.user && (later.status == REJECTED || Open(earlier))
  }

  lemma PendingStaysOk(before: Table, after: Table, tx: Tx)
    requires tx.phase.Written? && PendingOk(before, tx)
    requires forall r <- after :: r in before && LessOpen(after[r], before[r])
    ensures PendingOk(after, tx)
  {
  }

  lemma StepKeepsUnique(lockOf: LockMap, db: Db, c: Command)
    requires Inv(lockOf, db)
    ensures EntriesUnique(Apply(lockOf, db, c))
  {
    if Legal(lockOf, db, c) {
      if c.Commit? {
        CommitKeepsUnique(lockOf, db, c.tx);
      } else {
        var next := Apply(lockOf, db, c);
        assert forall r <- next.rows :: r in db.rows && LessOpen(next.rows[r], db.rows[r]);
        forall x <- next.txs | next.txs[x].phase.Written?
          ensures PendingOk(next.rows, next.txs[x])
        {
          if x in db.txs && db.txs[x].phase.Written? {
            assert PendingOk(db.rows, db.txs[x]) && next.txs[x] == db.txs[x];
            PendingStaysOk(db.rows, next.rows, db.txs[x]);
          } else {
            assert c.Write? && c.tx == x && next.rows == db.rows;
          }
        }
      }
    }
  }

  lemma StepKeepsInv(lockOf: LockMap, db: Db, c: Command)
    requires Inv(lockOf, db)
    ensures Inv(lockOf, Apply(lockOf, db, c))
  {
    StepKeepsHolders(lockOf, db, c);
    StepKeepsFresh(lockOf, db, c);
    StepKeepsCaps(lockOf, db, c);
    StepKeepsUnique(lockOf, db, c);
  }

  // ---- Runs ----

  type Run = RunOf<Command>

  function Exec(lockOf: LockMap, run: Run): Db {
    match run
    case Start => EMPTY
    case Then(before, c) => Apply(lockOf, Exec(lockOf, before), c)
  }

  lemma {:induction false} RunKeepsInv(lockOf: LockMap, run: Run)
    ensures Inv(lockOf, Exec(lockOf, run))
  {
    match run
    case Start =>
      forall t: Target
        ensures Count(EMPTY.rows, t) == 0
      {
        assert OpenRows(EMPTY.rows, t) == {};
      }
    case Then(before, c) =>
      RunKeepsInv(lockOf, before);
      StepKeepsInv(lockOf, Exec(lockOf, before), c);
  }

  /** In every run, for every assignment of locks (collisions included), no form has more committed
      responses than its maximum and no post more than ten open or accepted co-authors. */
  lemma CapsHold(lockOf: LockMap, run: Run, target: Target)
    ensures Count(Exec(lockOf, run).rows, target) <= match target case Form(_, max) => max case Post(_) => 10
  {
    RunKeepsInv(lockOf, run);
  }

  /** What is counted: the pending and accepted rows of the target, rejected ones never. */
  lemma CountMeans(t: Table, id: RowId, row: Row, target: Target)
    requires id !in t
    ensures Count(map[], target) == 0
    ensures Count(t[id := row], target) ==
      Count(t, target) + if row.target == target && row.status in {PENDING, ACCEPTED} then 1 else 0
  {
    assert OpenRows(map[], target) == {};
    OpenRowsGrow(t, id, row, target);
    hide OpenRows;
  }

  lemma OpenRowsGrow(t: Table, id: RowId, row: Row, target: Target)
    requires id !in t
    ensures id !in OpenRows(t, target)
    ensures OpenRows(t[id := row], target) ==
      OpenRows(t, target) + if row.target == target && row.status in {PENDING, ACCEPTED} then {id} else {}
  {
  }

  /** Re-invitations never leave a user with two entries on a post (or two responses to a form),
      even without the unique index. */
  lemma OneEntryPerUser(lockOf: LockMap, run: Run, a: RowId, b: RowId)
    requires var rows := Exec(lockOf, run).rows;
      a in rows && b in rows && rows[a].target == rows[b].target && rows[a].user.Some? && rows[a].user == rows[b].user
    ensures a == b
  {
    RunKeepsInv(lockOf, run);
  }

  // A table before and after one row came in: every other row is untouched, but for a rejected entry of the same
  // user on the same target, which may have gone.
  ghost predicate Inserts(before: Table, after: Table, id: RowId, row: Row) {
    && id !in before && id in after && after[id] == row && after.Keys <= before.Keys + {id}
    && forall r <- before ::
         if r in after then after[r] == before[r]
         else before[r].status == REJECTED && before[r].target == row.target && row.user.Some? && before[r].user == row.user
  }

  /** Whatever happened since it wrote, the commit of a transaction brings in its own open row and leaves every other
      row of every target as it was, but for the rejected entry that the row replaces. */
  lemma CommitInserts(lockOf: LockMap, run: Run, tx: TxId)
    requires Legal(lockOf, Exec(lockOf, run), Commit(tx))
    ensures var p := Exec(lockOf, run).txs[tx];
      && p.phase.row.target == p.target && p.phase.row.status in {PENDING, ACCEPTED}
      && Inserts(Exec(lockOf, run).rows, Exec(lockOf, Then(run, Commit(tx))).rows, p.phase.id, p.phase.row)
  {
    RunKeepsInv(lockOf, run);
    assert PendingOk(Exec(lockOf, run).rows, Exec(lockOf, run).txs[tx]);
  }

  // ---- What holding the lock buys ----

  // Every command after a was issued by others: none of them belongs to the transactions in own.
  ghost predicate OthersOnly(a: Run, b: Run, own: set<TxId>) {
    a == b || (b.Then? && OthersOnly(a, b.before, own) && !IssuedBy(b.cmd, own))
  }

  lemma {:induction false} OthersWithin(a: Run, b: Run, own: set<TxId>)
    requires OthersOnly(a, b, own)
    ensures Within(a, b)
  {
    if a != b {
      OthersWithin(a, b.before, own);
    }
  }

  predicate IssuedBy(c: Command, own: set<TxId>) {
    match c
    case Respond(_, _) => false
    case Remove(_) => false
    case _ => c.tx in own
  }

  // Rows of the target only disappear or are rejected.
  ghost predicate OnlyShrinks(before: Table, after: Table, target: Target) {
    forall r <- after :: after[r].target == target ==> r in before && LessOpen(after[r], before[r])
  }

  // A row that was there is still the same entry, or gone for good: its id is never used again.
  ghost predicate SameOrGone(before: Db, after: Db) {
    && (forall r <- before.rows :: r in after.used && (r in after.rows ==> LessOpen(after.rows[r], before.rows[r])))
    && (forall r <- before.rows, x <- after.txs :: after.txs[x].phase.Written? ==> after.txs[x].phase.id != r)
  }

  lemma SelfSame(lockOf: LockMap, db: Db)
    requires Inv(lockOf, db)
    ensures SameOrGone(db, db)
  {
  }

  lemma StepKeepsIdentity(lockOf: LockMap, first: Db, db: Db, c: Command)
    requires SameOrGone(first, db)
    ensures SameOrGone(first, Apply(lockOf, db, c))
  {
  }

  lemma {:induction false} RowsKeepTheirIdentity(lockOf: LockMap, a: Run, b: Run)
    requires Within(a, b)
    ensures SameOrGone(Exec(lockOf, a), Exec(lockOf, b))
  {
    if a != b {
      RowsKeepTheirIdentity(lockOf, a, b.before);
      StepKeepsIdentity(lockOf, Exec(lockOf, a), Exec(lockOf, b.before), b.cmd);
    } else {
      RunKeepsInv(lockOf, a);
      SelfSame(lockOf, Exec(lockOf, a));
    }
  }

  lemma StepByOthersShrinks(lockOf: LockMap, db: Db, c: Command, tx: TxId)
    requires Inv(lockOf, db) && tx in db.txs && !db.txs[tx].phase.Waiting? && !IssuedBy(c, {tx})
    ensures var next := Apply(lockOf, db, c);
            tx in next.txs && next.txs[tx] == db.txs[tx] && OnlyShrinks(db.rows, next.rows, db.txs[tx].target)
  {
  }

  /** While a transaction holds the lock of a target, whatever the others do, the committed entries of
      that target are a subset of those it saw, and none has become open again. */
  lemma {:induction false} LockFreezesTarget(lockOf: LockMap, a: Run, b: Run, tx: TxId)
    requires OthersOnly(a, b, {tx})
    requires var db := Exec(lockOf, a); tx in db.txs && !db.txs[tx].phase.Waiting?
    ensures var db, later := Exec(lockOf, a), Exec(lockOf, b);
            && tx in later.txs && later.txs[tx] == db.txs[tx]
            && OnlyShrinks(db.rows, later.rows, db.txs[tx].target)
  {
    if a != b {
      LockFreezesTarget(lockOf, a, b.before, tx);
      RunKeepsInv(lockOf, b.before);
      StepByOthersShrinks(lockOf, Exec(lockOf, b.before), b.cmd, tx);
    }
  }

  // ---- The service and repository functions ----

  datatype AddResult = Added | LimitReached | NoSuchUser | Duplicate
  datatype RespondResult = NotFound | AlreadyResponded | NotYours | Recorded
  datatype RemoveResult = Missing | Forbidden | Deleted(hit: bool)

  // The user has a pending or accepted entry on the target.
  ghost predicate HasOpenEntry(rows: Table, target: Target, user: UserId) {
    exists r :: r in rows && rows[r].target == target && rows[r].user == Some(user) && rows[r].status in {PENDING, ACCEPTED}
  }

  // The last step of the run is the commit of tx, which brings in this row and leaves the others alone.
  ghost predicate Brings(lockOf: LockMap, start: Run, end: Run, tx: TxId, id: RowId, row: Row) {
    && end.Then? && end.cmd == Commit(tx) && Within(start, end.before)
    && Inserts(Exec(lockOf, end.before).rows, Exec(lockOf, end).rows, id, row)
  }

  // The statements after the count: INSERT and commit, or a rollback.
  ghost predicate InsertTail(
    lockOf: LockMap, start: Run, end: Run, tx: TxId, id: RowId, row: Row, result: AddResult, steps: seq<Run>) {
    if result == Added then
      && |steps| == 2 && steps[0].Then? && steps[0].cmd.Write? && steps[0].cmd.tx == tx && steps[1] == end
      && Brings(lockOf, start, end, tx, id, row)
    else steps == [end] && end.Then? && end.cmd == Rollback(tx) && Within(start, end.before)
  }

  /** The statements of an insert once its lock is granted: at the limit a rollback and nothing else, below it the
      admission and then a rollback or the insert. */
  ghost predicate InsertSteps(
    lockOf: LockMap, start: Run, end: Run, tx: TxId, id: RowId, row: Row, result: AddResult, steps: seq<Run>) {
    || (result != Added && steps == [end] && end == Then(start, Rollback(tx)))
    || (result != LimitReached && steps != [] && steps[0] == Then(start, Admit(tx))
        && InsertTail(lockOf, steps[0], end, tx, id, row, result, steps[1..]))
  }

  // Statements after a later moment are statements after an earlier one.
  lemma TailEarlier(
    lockOf: LockMap, earlier: Run, start: Run, end: Run, tx: TxId, id: RowId, row: Row, result: AddResult, steps: seq<Run>)
    requires Within(earlier, start) && InsertTail(lockOf, start, end, tx, id, row, result, steps)
    ensures InsertTail(lockOf, earlier, end, tx, id, row, result, steps)
  {
    WithinTransitive(earlier, start, end.before);
  }

  lemma WithinNext(a: Run, b: Run)
    requires Within(a, b) && a.Then?
    ensures Within(a.before, b)
  {
    assert Within(a.before, a);
    WithinTransitive(a.before, a, b);
  }

  /** A rollback changes no row. */
  lemma RollbackKeepsRows(lockOf: LockMap, run: Run, tx: TxId)
    ensures Exec(lockOf, Then(run, Rollback(tx))).rows == Exec(lockOf, run).rows
    ensures Exec(lockOf, Then(run, Admit(tx))).rows == Exec(lockOf, run).rows
  {
  }

  class Database {
    const lockOf: LockMap
    var rows: Table
    ghost var locks: map<LockId, TxId>
    ghost var txs: map<TxId, Tx>
    ghost var used: set<RowId>
    ghost var log: Run
    ghost var own: seq<Run>  // the moments right after the statements of the methods of this object

    ghost function State(): Db
      reads this
    {
      Db(rows, locks, txs, used)
    }

    ghost predicate Valid()
      reads this
    {
      State() == Exec(lockOf, log)
    }

    constructor (lockOf: LockMap)
      ensures Valid() && log == Start && this.lockOf == lockOf
    {
      this.lockOf := lockOf;
      rows, locks, txs, used, log, own := map[], map[], map[], {}, Start, [];
    }

    // Statements of other transactions; ids in newIds stay unused.
    method Interference(ghost mine: set<TxId>, ghost newIds: set<RowId>)
      requires Valid()
      modifies this
      ensures Valid() && OthersOnly(old(log), log, mine)
      ensures own == old(own) && forall id <- newIds :: id !in old(used) ==> id !in used
    {
    }

    // The same, seen from a transaction that holds its lock.
    method Others(ghost tx: TxId, ghost id: RowId)
      requires Valid() && tx in txs && !txs[tx].phase.Waiting? && id !in used
      modifies this
      ensures Valid() && tx in txs && txs[tx] == old(txs)[tx] && id !in used
      ensures own == old(own) && Within(old(log), log)
      ensures OnlyShrinks(old(rows), rows, txs[tx].target) && SameOrGone(old(State()), State())
    {
      Interference({tx}, {id});
      LockFreezesTarget(lockOf, old(log), log, tx);
      OthersWithin(old(log), log, {tx});
      RowsKeepTheirIdentity(lockOf, old(log), log);
    }

    // Logs a statement; the real rows already show what it committed.
    ghost method Record(c: Command)
      requires rows == Apply(lockOf, Exec(lockOf, log), c).rows
      modifies this`locks, this`txs, this`used, this`log, this`own
      ensures own == old(own) + [log]
      ensures Valid() && log == Then(old(log), c) && State() == Apply(lockOf, Exec(lockOf, old(log)), c)
    {
      var next := Apply(lockOf, Exec(lockOf, log), c);
      locks, txs, used := next.locks, next.txs, next.used;
      log := Then(log, c);
      own := own + [log];
    }

    // Opens a transaction and asks for the lock; the caller goes on once it is granted.
    method Lock(ghost tx: TxId, ghost target: Target)
      requires Valid() && tx !in txs
      modifies this
      ensures Valid() && tx in txs && txs[tx].target == target && txs[tx].phase in {Waiting, Locked}
      ensures rows == old(rows)
      ensures txs[tx].phase == Locked <==> lockOf(target) !in old(locks)
    {
      Record(Begin(tx, target));
      Record(Acquire(tx));
    }

    method CountOpen(target: Target) returns (count: nat)
      ensures count == Count(rows, target)
    {
      count := |OpenRows(rows, target)|;
    }

    method FindExistingByUser(target: Target, user: UserId) returns (found: Option<RowId>)
      ensures found.Some? ==> found.value in rows && rows[found.value].target == target && rows[found.value].user == Some(user)
      ensures found.None? ==> forall r <- rows :: !(rows[r].target == target && rows[r].user == Some(user))
    {
      if id :| id in rows && rows[id].target == target && rows[id].user == Some(user) {
        return Some(id);
      }
      return None;
    }

    method Abort(ghost tx: TxId)
      requires Valid() && tx in txs
      modifies this`locks, this`txs, this`used, this`log, this`own
      ensures Valid() && tx !in txs && log == Then(old(log), Rollback(tx)) && own == old(own) + [log]
    {
      Record(Rollback(tx));
    }

    /** INSERT, after DELETE of a rejected entry; both show at the commit. The commit brings in the row and leaves the
        others alone, whatever other transactions did since the INSERT. */
    method InsertAndCommit(ghost tx: TxId, id: RowId, row: Row, existing: Option<RowId>)
      requires Valid() && tx in txs && txs[tx].phase == Admitted && row.target == txs[tx].target && Open(row)
      requires id !in used
      requires forall r <- rows :: SameEntry(rows[r], row) ==> existing == Some(r)
      requires existing.Some? && existing.value in rows ==> Supersedes(row, rows[existing.value])
      modifies this
      ensures Valid() && tx !in txs
      ensures old(own) <= own && InsertTail(lockOf, old(log), log, tx, id, row, Added, own[|old(own)|..])
    {
      var replaced := if existing.Some? && existing.value in rows then existing else None;
      var phase := Written(id, row, replaced);
      Record(Write(tx, id, row, replaced));
      ghost var written := log;
      Interference({tx}, {});
      LockFreezesTarget(lockOf, written, log, tx);
      OthersWithin(written, log, {tx});
      CommitInserts(lockOf, log, tx);
      rows := AfterWrite(rows, phase);
      WithinNext(written, log);
      ghost var start := old(log);
      Record(Commit(tx));
      assert own[|old(own)|..] == [written, log];
    }

    /** invite_co_author from the moment the lock is granted. The count and the look-up see committed
        rows while others respond and remove; still the cap alone refuses for the limit, and a
        duplicate is reported only for a user who had an open entry when the count was taken. */
    method InviteCoAuthor(ghost tx: TxId, postId: nat, user: UserId, userExists: bool,
        id: RowId) returns (result: AddResult)
      requires Valid() && tx in txs && txs[tx] == Tx(Post(postId), Locked) && id !in used
      modifies this
      ensures Valid() && tx !in txs
      ensures result == LimitReached <==> old(Count(rows, Post(postId))) >= 10
      ensures result == NoSuchUser <==> result != LimitReached && !userExists
      ensures result == Duplicate ==> HasOpenEntry(old(rows), Post(postId), user)
      ensures result == Added ==> id in rows && rows[id] == Row(Post(postId), Some(user), PENDING)
      ensures Count(rows, Post(postId)) <= 10
      ensures old(own) <= own
      ensures InsertSteps(
        lockOf, old(log), log, tx, id, Row(Post(postId), Some(user), PENDING), result, own[|old(own)|..])
    {
      hide Exec, InsertTail, HasOpenEntry, Count;
      var count := CountOpen(Post(postId));
      if count >= MAX_CO_AUTHORS_PER_POST {
        Abort(tx);
        result := LimitReached;
      } else {
        AdmitCounted(tx);
        ghost var admitted := log;
        result := InviteBelow(tx, postId, user, userExists, id);
        assert own[|old(own)|..] == [admitted] + own[|old(own)| + 1..];
      }
      CapsHold(lockOf, log, Post(postId));
    }

    ghost method AdmitCounted(tx: TxId)
      requires Valid() && tx in txs && txs[tx].phase == Locked && Count(rows, txs[tx].target) < txs[tx].target.Cap()
      modifies this`locks, this`txs, this`used, this`log, this`own
      ensures Valid() && tx in txs && txs[tx] == Tx(old(txs)[tx].target, Admitted) && used == old(used)
      ensures log == Then(old(log), Admit(tx)) && own == old(own) + [log]
    {
      Record(Admit(tx));
    }

    method InviteBelow(ghost tx: TxId, postId: nat, user: UserId, userExists: bool, id: RowId) returns (result: AddResult)
      requires Valid() && tx in txs && txs[tx] == Tx(Post(postId), Admitted) && id !in used
      modifies this
      ensures Valid() && tx !in txs && result in {Added, Duplicate, NoSuchUser}
      ensures result == NoSuchUser <==> !userExists
      ensures result == Duplicate ==> HasOpenEntry(old(rows), Post(postId), user)
      ensures result == Added ==> id in rows && rows[id] == Row(Post(postId), Some(user), PENDING)
      ensures old(own) <= own
      ensures InsertTail(lockOf, old(log), log, tx, id, Row(Post(postId), Some(user), PENDING), result, own[|old(own)|..])
    {
      ghost var admitted := log;
      Others(tx, id);
      ghost var start := log;
      if !userExists {
        Abort(tx);
        result := NoSuchUser;
      } else {
        result := InviteAdmitted(tx, postId, user, id);
      }
      TailEarlier(lockOf, admitted, start, log, tx, id, Row(Post(postId), Some(user), PENDING), result, own[|old(own)|..]);
    }

    method InviteAdmitted(ghost tx: TxId, postId: nat, user: UserId, id: RowId) returns (result: AddResult)
      requires Valid() && tx in txs && txs[tx] == Tx(Post(postId), Admitted) && id !in used
      modifies this
      ensures Valid() && tx !in txs && result in {Added, Duplicate}
      ensures result == Duplicate <==> HasOpenEntry(old(rows), Post(postId), user)
      ensures result == Added ==> id in rows && rows[id] == Row(Post(postId), Some(user), PENDING)
      ensures old(own) <= own
      ensures InsertTail(
        lockOf, old(log), log, tx, id, Row(Post(postId), Some(user), PENDING), result, own[|old(own)|..])
    {
      RunKeepsInv(lockOf, log);
      var row := Row(Post(postId), Some(user), PENDING);
      var existing := FindExistingByUser(Post(postId), user);
      if existing.Some? && rows[existing.value].status != REJECTED {
        Abort(tx);
        return Duplicate;
      }
      ghost var looked := log;
      Others(tx, id);
      ghost var start := log;
      InsertAndCommit(tx, id, row, existing);
      TailEarlier(lockOf, looked, start, log, tx, id, row, Added, own[|old(own)|..]);
      return Added;
    }

    // add_external_co_author; nameTaken is the unique index on external names.
    method AddExternalCoAuthor(ghost tx: TxId, postId: nat, nameTaken: bool, id: RowId) returns (result: AddResult)
      requires Valid() && tx in txs && txs[tx] == Tx(Post(postId), Locked) && id !in used
      modifies this
      ensures Valid() && tx !in txs
      ensures result == LimitReached <==> old(Count(rows, Post(postId))) >= 10
      ensures result == Duplicate <==> result != LimitReached && nameTaken
      ensures result == Added ==> id in rows && rows[id] == Row(Post(postId), None, ACCEPTED)
      ensures Count(rows, Post(postId)) <= 10
      ensures old(own) <= own
      ensures InsertSteps(lockOf, old(log), log, tx, id, Row(Post(postId), None, ACCEPTED), result, own[|old(own)|..])
    {
      var count := CountOpen(Post(postId));
      if count >= MAX_CO_AUTHORS_PER_POST {
        Abort(tx);
        result := LimitReached;
      } else {
        AdmitCounted(tx);
        ghost var admitted := log;
        Others(tx, id);
        ghost var start := log;
        if nameTaken {
          Abort(tx);
          result := Duplicate;
        } else {
          InsertAndCommit(tx, id, Row(Post(postId), None, ACCEPTED), None);
          result := Added;
        }
        assert own[|old(own)|..] == [admitted] + own[|old(own)| + 1..];
        TailEarlier(lockOf, admitted, start, log, tx, id, Row(Post(postId), None, ACCEPTED), result, own[|old(own)| + 1..]);
      }
      CapsHold(lockOf, log, Post(postId));
    }

    /** insert_response once the lock is granted: counting and inserting are one statement. A second
        response of the same user violates the unique constraint and aborts. */
    method InsertResponse(ghost tx: TxId, form: Target, user: Option<UserId>, id: RowId) returns (result: AddResult)
      requires form.Form? && Valid() && tx in txs && txs[tx] == Tx(form, Locked) && id !in used
      modifies this
      ensures Valid() && tx !in txs
      ensures result == LimitReached <==> old(Count(rows, form)) >= form.maxRespondents
      ensures result == Duplicate <==>
        result != LimitReached && user.Some?
        && exists r :: r in old(rows) && old(rows)[r].target == form && old(rows)[r].user == user
      ensures result == Added ==> id in rows && rows[id] == Row(form, user, ACCEPTED)
      ensures Count(rows, form) <= form.maxRespondents
      ensures old(own) <= own
      ensures InsertSteps(lockOf, old(log), log, tx, id, Row(form, user, ACCEPTED), result, own[|old(own)|..])
    {
      var count := CountOpen(form);
      var row := Row(form, user, ACCEPTED);
      if count >= form.maxRespondents {
        Abort(tx);
        result := LimitReached;
      } else if r :| r in rows && rows[r].target == form && user.Some? && rows[r].user == user {
        assert SameEntry(rows[r], row);
        Abort(tx);
        result := Duplicate;
      } else {
        Record(Admit(tx));
        InsertAndCommit(tx, id, row, None);
        result := Added;
      }
      CapsHold(lockOf, log, form);
    }

    // respond_to_invitation: the row is locked, so check and update are one step.
    method RespondToInvitation(id: RowId, user: UserId, accept: bool) returns (result: RespondResult)
      requires Valid()
      modifies this
      ensures Valid()
      ensures result == Recorded <==>
        id in old(rows) && old(rows)[id].target.Post? && old(rows)[id].status == PENDING && old(rows)[id].user == Some(user)
      ensures result == NotFound <==> !(id in old(rows) && old(rows)[id].target.Post?)
      ensures result == NotYours <==>
        id in old(rows) && old(rows)[id].target.Post? && old(rows)[id].status == PENDING && old(rows)[id].user != Some(user)
      ensures result == Recorded ==>
        rows == old(rows)[id := old(rows)[id].(status := if accept then ACCEPTED else REJECTED)]
      ensures result != Recorded ==> rows == old(rows)
    {
      if id !in rows || rows[id].target.Form? {
        return NotFound;
      }
      if rows[id].status != PENDING {
        return AlreadyResponded;
      }
      if rows[id].user != Some(user) {
        return NotYours;
      }
      rows := rows[id := rows[id].(status := if accept then ACCEPTED else REJECTED)];
      Record(Respond(id, accept));
      return Recorded;
    }

    method DeleteCoAuthor(id: RowId) returns (hit: bool)
      requires Valid()
      modifies this
      ensures Valid() && hit == (id in old(rows)) && rows == old(rows) - {id} && log == Then(old(log), Remove(id))
    {
      hit := id in rows;
      rows := rows - {id};
      Record(Remove(id));
    }

    // remove_co_author (user None) and leave_co_authorship (user Some): look up, check, delete.
    method RemoveCoAuthor(postId: nat, id: RowId, user: Option<UserId>) returns (result: RemoveResult)
      requires Valid()
      modifies this
      ensures Valid()
      ensures result == Missing <==> !(id in old(rows) && old(rows)[id].target == Post(postId))
      ensures result == Forbidden <==> result != Missing && user.Some? && old(rows)[id].user != user
      ensures result.Deleted? ==>
        log.Then? && log.cmd == Remove(id) && Within(old(log), log.before) && rows == Exec(lockOf, log.before).rows - {id}
      ensures !result.Deleted? ==> log == old(log)
    {
      if id !in rows || rows[id].target != Post(postId) {
        return Missing;
      }
      if user.Some? && rows[id].user != user {
        return Forbidden;
      }
      ghost var found := log;
      Interference({}, {});
      OthersWithin(found, log, {});
      var hit := DeleteCoAuthor(id);
      return Deleted(hit);
    }
  }
}
