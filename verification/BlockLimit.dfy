/** The limit on the users somebody may block, under concurrent requests of the same user (block_user in
    backend/app/services/social.py): each transaction counts the committed blocks and inserts its own
    later, and nothing is locked. */
module BlockLimit {
  import opened Basics
  import opened BlockCache

  type TxId = nat

  // The blocker's committed rows, and what each open transaction has counted.
  datatype Tally = Tally(blocks: nat, seen: map<TxId, nat>)

  datatype Statement =
    | Count(tx: TxId)
    | Insert(tx: TxId)  // with the commit
    | Leave(tx: TxId)   // the limit is reached, or another error
    | Lift              // an unblock

  predicate Legal(t: Tally, c: Statement) {
    match c
    case Count(tx) => tx !in t.seen
    case Insert(tx) => tx in t.seen && t.seen[tx] < MAX_BLOCKS_PER_USER
    case Leave(tx) => tx in t.seen
    case Lift => t.blocks > 0
  }

  // A statement that is not legal does nothing.
  function Do(t: Tally, c: Statement): Tally {
    if !Legal(t, c) then t else
    match c
    case Count(tx) => t.(seen := t.seen[tx := t.blocks])
    case Insert(tx) => Tally(t.blocks + 1, t.seen - {tx})
    case Leave(tx) => t.(seen := t.seen - {tx})
    case Lift => t.(blocks := t.blocks - 1)
  }

  type Statements = RunOf<Statement>

  function After(run: Statements): Tally {
    match run
    case Start => Tally(0, map[])
    case Then(before, c) => Do(After(before), c)
  }

  predicate LegalRun(run: Statements) {
    run.Then? ==> LegalRun(run.before) && Legal(After(run.before), run.cmd)
  }

  // Never more than w transactions are open at a time.
  predicate AtMost(run: Statements, w: nat) {
    |After(run).seen| <= w && (run.Then? ==> AtMost(run.before, w))
  }

  // The open transactions that will insert.
  function Admitted(t: Tally): set<TxId> {
    set tx <- t.seen | t.seen[tx] < MAX_BLOCKS_PER_USER
  }

  lemma AdmittedNext(t: Tally, c: Statement)
    requires Legal(t, c)
    ensures Admitted(Do(t, c)) ==
      match c
      case Count(tx) => Admitted(t) + if t.blocks < MAX_BLOCKS_PER_USER then {tx} else {}
      case Insert(tx) => Admitted(t) - {tx}
      case Leave(tx) => Admitted(t) - {tx}
      case Lift => Admitted(t)
  {
  }

  /** With at most w requests of a user at a time, the limit is exceeded by w - 1 at most. */
  lemma {:induction false} OvershootBounded(run: Statements, w: nat)
    requires LegalRun(run) && AtMost(run, w) && w >= 1
    ensures After(run).blocks + |Admitted(After(run))| <= MAX_BLOCKS_PER_USER + w - 1
  {
    if run.Then? {
      OvershootBounded(run.before, w);
      var t, next := After(run.before), After(run);
      AdmittedNext(t, run.cmd);
      assert Admitted(next) <= next.seen.Keys;
      SubsetSize(Admitted(next), next.seen.Keys);
      assert |next.seen.Keys| == |next.seen|;
      if run.cmd.Leave? {
        SubsetSize(Admitted(next), Admitted(t));
      }
    }
  }

  // One request after the other.
  lemma {:induction false} OneByOne(n: nat) returns (run: Statements)
    requires n <= MAX_BLOCKS_PER_USER
    ensures LegalRun(run) && AtMost(run, 1) && After(run) == Tally(n, map[])
  {
    if n == 0 {
      run := Start;
    } else {
      var before := OneByOne(n - 1);
      var counted := Then(before, Count(0));
      assert After(counted) == Tally(n - 1, map[0 := n - 1]);
      assert map[0 := n - 1] - {0} == map[];
      run := Then(counted, Insert(0));
    }
  }

  lemma {:induction false} Wider(run: Statements, v: nat, w: nat)
    requires AtMost(run, v) && v <= w
    ensures AtMost(run, w)
  {
    if run.Then? {
      Wider(run.before, v, w);
    }
  }

  // The first k transactions have counted one block less than the limit.
  function Counted(k: nat): (seen: map<TxId, nat>)
    ensures |seen| == k && forall tx <- seen :: tx < k && seen[tx] < MAX_BLOCKS_PER_USER
  {
    if k == 0 then map[] else Counted(k - 1)[k - 1 := MAX_BLOCKS_PER_USER - 1]
  }

  lemma {:induction false} AllCount(w: nat, k: nat) returns (run: Statements)
    requires 1 <= w && k <= w
    ensures LegalRun(run) && AtMost(run, w) && After(run) == Tally(MAX_BLOCKS_PER_USER - 1, Counted(k))
  {
    if k == 0 {
      run := OneByOne(MAX_BLOCKS_PER_USER - 1);
      Wider(run, 1, w);
    } else {
      var before := AllCount(w, k - 1);
      run := Then(before, Count(k - 1));
      assert Counted(k - 1)[k - 1 := MAX_BLOCKS_PER_USER - 1] == Counted(k);
    }
  }

  // k of the w transactions are still to insert.
  lemma {:induction false} AllInsert(w: nat, k: nat) returns (run: Statements)
    requires 1 <= w && k <= w
    ensures LegalRun(run) && AtMost(run, w) && After(run) == Tally(MAX_BLOCKS_PER_USER - 1 + w - k, Counted(k))
    decreases w - k
  {
    if k == w {
      run := AllCount(w, w);
    } else {
      var before := AllInsert(w, k + 1);
      run := Then(before, Insert(k));
      assert Counted(k + 1) - {k} == Counted(k);
    }
  }

  /** The limit holds in every run with at most w requests of the user at a time if and only if w <= 1:
      counting inside the transaction does not keep two concurrent requests from passing together. */
  lemma LimitHoldsIff(w: nat)
    ensures (forall run: Statements :: LegalRun(run) && AtMost(run, w) ==> After(run).blocks <= MAX_BLOCKS_PER_USER) <==> w <= 1
  {
    if w <= 1 {
      forall run: Statements | LegalRun(run) && AtMost(run, w)
        ensures After(run).blocks <= MAX_BLOCKS_PER_USER
      {
        Wider(run, w, 1);
        OvershootBounded(run, 1);
      }
    } else {
      var run := AllInsert(w, 0);
    }
  }

  /** The bound is attained for every w. */
  lemma OvershootAttained(w: nat) returns (run: Statements)
    requires w >= 1
    ensures LegalRun(run) && AtMost(run, w) && After(run).blocks == MAX_BLOCKS_PER_USER + w - 1
  {
    run := AllInsert(w, 0);
  }
}
