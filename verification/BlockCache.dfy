/** The Redis cache of bilateral blocks (backend/app/core/blacklist.py), with the writes of
    backend/app/services/social.py (block_user, unblock_user).

    A key that is present is taken as the whole set. When it is missing, a reader that was given a
    connection pool asks the database, and a reader without one takes the set to be empty. Keys may
    vanish at any time (24 h and 1 h lifetimes), and the update of the cache after a block or an unblock
    has committed may fail. */
module BlockCache {
  import opened Basics

  type UserId = nat
  type Block = (UserId, UserId)  // (blocker_id, blocked_id)
  type Cache = map<UserId, set<UserId>>

  const BATCH_SIZE: nat := 5000

  datatype World = World(blocks: set<Block>, cache: Cache)

  // Everyone who blocks u or is blocked by u.
  function Closure(blocks: set<Block>, u: UserId): set<UserId> {
    (set b <- blocks | b.0 == u :: b.1) + (set b <- blocks | b.1 == u :: b.0)
  }

  lemma InClosure(blocks: set<Block>, u: UserId, v: UserId)
    ensures v in Closure(blocks, u) <==> (u, v) in blocks || (v, u) in blocks
  {
  }

  // ---- Redis sets: an empty set is a missing key ----

  function Members(cache: Cache, u: UserId): set<UserId> {
    if u in cache then cache[u] else {}
  }

  function SAdd(cache: Cache, u: UserId, v: UserId): Cache {
    cache[u := Members(cache, u) + {v}]
  }

  function SRem(cache: Cache, u: UserId, v: UserId): Cache {
    if Members(cache, u) - {v} == {} then cache - {u} else cache[u := cache[u] - {v}]
  }

  function Fill(cache: Cache, u: UserId, others: set<UserId>): Cache {
    if others == {} then cache else cache[u := Members(cache, u) + others]
  }

  // SADD in both directions.
  function AddBlock(cache: Cache, b: Block): Cache {
    SAdd(SAdd(cache, b.0, b.1), b.1, b.0)
  }

  // SREM in both directions.
  function RemoveBlock(cache: Cache, b: Block): Cache {
    SRem(SRem(cache, b.0, b.1), b.1, b.0)
  }

  function Endpoints(blocks: set<Block>): set<UserId> {
    (set b <- blocks :: b.0) + (set b <- blocks :: b.1)
  }

  // What a warm-up over these rows leaves.
  function Warmed(cache: Cache, blocks: set<Block>): Cache {
    map u | u in cache.Keys + Endpoints(blocks) :: Members(cache, u) + Closure(blocks, u)
  }

  // What get_blocked_user_ids answers, with a pool that can be reached or without one.
  function Answer(w: World, u: UserId, pool: bool): set<UserId> {
    if u in w.cache then w.cache[u] else if pool then Closure(w.blocks, u) else {}
  }

  // ---- Calls, one at a time ----

  // cached: the update of the cache, one MULTI after the commit, gets through.
  datatype Command =
    | BlockUser(blocker: UserId, blocked: UserId, cached: bool)
    | UnblockUser(blocker: UserId, blocked: UserId, cached: bool)
    | Get(u: UserId)  // with a pool; without one nothing changes
    | Expire(u: UserId)
    | WarmUp

  // A user may not block themselves or block twice; only an existing block is lifted.
  predicate Effective(w: World, c: Command) {
    match c
    case BlockUser(a, b, _) => a != b && (a, b) !in w.blocks
    case UnblockUser(a, b, _) => (a, b) in w.blocks
    case _ => true
  }

  function Apply(w: World, c: Command): World {
    if !Effective(w, c) then w else
    match c
    case BlockUser(a, b, cached) =>
      World(w.blocks + {(a, b)}, if cached then AddBlock(w.cache, (a, b)) else w.cache)
    case UnblockUser(a, b, cached) =>
      World(w.blocks - {(a, b)}, if cached then RemoveBlock(w.cache, (a, b)) else w.cache)
    case Get(u) => if u in w.cache then w else w.(cache := Fill(w.cache, u, Closure(w.blocks, u)))
    case Expire(u) => w.(cache := w.cache - {u})
    case WarmUp => w.(cache := Warmed(w.cache, w.blocks))
  }

  type Run = RunOf<Command>

  function Exec(run: Run): World {
    match run
    case Start => World({}, map[])
    case Then(before, c) => Apply(Exec(before), c)
  }

  // The other party of the call, if u is one of the two.
  function Other(c: Command, u: UserId): Option<UserId> {
    match c
    case BlockUser(a, b, _) => if u == a then Some(b) else if u == b then Some(a) else None
    case UnblockUser(a, b, _) => if u == a then Some(b) else if u == b then Some(a) else None
    case _ => None
  }

  // ---- What a call does to the closure and to a cached set ----

  ghost predicate Tidy(w: World) {
    (forall b <- w.blocks :: b.0 != b.1) && NoEmptySet(w.cache)
  }

  // Redis keeps no empty sets.
  ghost predicate NoEmptySet(cache: Cache) {
    forall u <- cache :: cache[u] != {}
  }

  lemma MembersAfterSRem(cache: Cache, u: UserId, v: UserId, x: UserId)
    ensures Members(SRem(cache, u, v), x) == if x == u then Members(cache, x) - {v} else Members(cache, x)
    ensures x in SRem(cache, u, v) <==> if x == u then Members(cache, x) - {v} != {} else x in cache
  {
    if x == u && Members(cache, u) - {v} != {} {
      assert u in cache;
    }
  }

  // The sets after SREM in both directions.
  lemma RemoveBlockMembers(cache: Cache, a: UserId, b: UserId, u: UserId)
    requires a != b
    ensures var gone := if u == a then {b} else if u == b then {a} else {};
      && Members(RemoveBlock(cache, (a, b)), u) == Members(cache, u) - gone
      && (u in RemoveBlock(cache, (a, b)) <==> if u == a || u == b then Members(cache, u) - gone != {} else u in cache)
  {
    MembersAfterSRem(cache, a, b, u);
    MembersAfterSRem(SRem(cache, a, b), b, a, u);
  }

  lemma AddBlockMembers(cache: Cache, a: UserId, b: UserId, u: UserId)
    requires a != b
    ensures var more := if u == a then {b} else if u == b then {a} else {};
      && Members(AddBlock(cache, (a, b)), u) == Members(cache, u) + more
      && (u in AddBlock(cache, (a, b)) <==> u in cache || u == a || u == b)
  {
  }

  lemma ClosureAfterBlock(blocks: set<Block>, a: UserId, b: UserId, u: UserId)
    requires a != b
    ensures Closure(blocks + {(a, b)}, u) == Closure(blocks, u) + if u == a then {b} else if u == b then {a} else {}
  {
    forall v
      ensures v in Closure(blocks + {(a, b)}, u) <==>
        v in Closure(blocks, u) || (u == a && v == b) || (u == b && v == a)
    {
      InClosure(blocks, u, v);
      InClosure(blocks + {(a, b)}, u, v);
    }
  }

  lemma ClosureAfterUnblock(blocks: set<Block>, a: UserId, b: UserId, u: UserId)
    requires a != b && (a, b) in blocks
    ensures Closure(blocks - {(a, b)}, u) ==
      Closure(blocks, u) - if (b, a) in blocks then {} else if u == a then {b} else if u == b then {a} else {}
    ensures u == a ==> b in Closure(blocks, u)
    ensures u == b ==> a in Closure(blocks, u)
  {
    InClosure(blocks, a, b);
    InClosure(blocks, b, a);
    forall v
      ensures v in Closure(blocks - {(a, b)}, u) <==>
        v in Closure(blocks, u) && ((b, a) in blocks || !((u == a && v == b) || (u == b && v == a)))
    {
      InClosure(blocks, u, v);
      InClosure(blocks - {(a, b)}, u, v);
    }
  }

  lemma WarmedMembers(w: World, u: UserId)
    ensures Members(Warmed(w.cache, w.blocks), u) == Members(w.cache, u) + Closure(w.blocks, u)
    ensures u in Warmed(w.cache, w.blocks) <==> u in w.cache || Closure(w.blocks, u) != {}
  {
    EndpointHasBlock(w.blocks, u);
  }

  lemma EndpointHasBlock(blocks: set<Block>, u: UserId)
    ensures u in Endpoints(blocks) <==> Closure(blocks, u) != {}
  {
    if b :| b in blocks && (b.0 == u || b.1 == u) {
      InClosure(blocks, u, if b.0 == u then b.1 else b.0);
    } else {
      assert forall v :: v !in Closure(blocks, u);
    }
  }

  lemma StepStaysTidy(w: World, c: Command)
    requires Tidy(w)
    ensures Tidy(Apply(w, c))
  {
    var next := Apply(w, c);
    forall u <- next.cache
      ensures Members(next.cache, u) != {}
    {
      assert u in w.cache ==> Members(w.cache, u) != {};
      if Effective(w, c) {
        match c
        case BlockUser(a, b, _) => AddBlockMembers(w.cache, a, b, u);
        case UnblockUser(a, b, _) => RemoveBlockMembers(w.cache, a, b, u);
        case WarmUp => WarmedMembers(w, u);
        case _ =>
      }
    }
  }

  lemma {:induction false} RunStaysTidy(run: Run)
    ensures Tidy(Exec(run))
  {
    if run.Then? {
      RunStaysTidy(run.before);
      StepStaysTidy(Exec(run.before), run.cmd);
    }
  }

  // ---- Safety: never more than the closure ----

  // Nobody is cached for u who is not blocked either way.
  ghost predicate Sound(w: World, u: UserId) {
    Members(w.cache, u) <= Closure(w.blocks, u)
  }

  // An unblock that commits while its cache update fails leaves the other one in the set of u.
  predicate Strands(w: World, c: Command, u: UserId) {
    && c.UnblockUser? && Effective(w, c) && !c.cached && Other(c, u).Some?
    && Other(c, u).value in Members(w.cache, u) && (c.blocked, c.blocker) !in w.blocks
  }

  /** A sound set stays sound after a call if and only if the call strands nobody in it. */
  lemma StaysSoundIff(w: World, c: Command, u: UserId)
    requires Tidy(w) && Sound(w, u)
    ensures Sound(Apply(w, c), u) <==> !Strands(w, c, u)
  {
    if Effective(w, c) {
      match c
      case BlockUser(a, b, _) =>
        AddBlockMembers(w.cache, a, b, u);
        ClosureAfterBlock(w.blocks, a, b, u);
      case UnblockUser(a, b, _) =>
        assert a != b by {
          assert (a, b).0 == a && (a, b).1 == b;
        }
        RemoveBlockMembers(w.cache, a, b, u);
        ClosureAfterUnblock(w.blocks, a, b, u);
      case WarmUp => WarmedMembers(w, u);
      case _ =>
    }
  }

  ghost predicate AlwaysSound(run: Run, u: UserId) {
    Sound(Exec(run), u) && (run.Then? ==> AlwaysSound(run.before, u))
  }

  ghost predicate NeverStranded(run: Run, u: UserId) {
    run.Then? ==> NeverStranded(run.before, u) && !Strands(Exec(run.before), run.cmd, u)
  }

  /** At every moment of a sequential run, expiry and mutual blocks included, nobody is reported to u who
      neither blocks u nor is blocked by u, if and only if no unblock lost its cache update while the other
      one was cached. */
  lemma {:induction false} SoundIff(run: Run, u: UserId)
    ensures AlwaysSound(run, u) <==> NeverStranded(run, u)
  {
    if run.Then? {
      SoundIff(run.before, u);
      RunStaysTidy(run.before);
      if AlwaysSound(run.before, u) {
        StaysSoundIff(Exec(run.before), run.cmd, u);
      }
    }
  }

  lemma NeverOverreaches(run: Run, u: UserId, v: UserId, pool: bool)
    requires NeverStranded(run, u) && v in Answer(Exec(run), u, pool)
    ensures (u, v) in Exec(run).blocks || (v, u) in Exec(run).blocks
  {
    SoundIff(run, u);
    assert u in Exec(run).cache ==> v in Members(Exec(run).cache, u);
    InClosure(Exec(run).blocks, u, v);
  }

  // ---- Completeness: exactly when an answer stays whole ----

  ghost predicate Whole(w: World, u: UserId, pool: bool) {
    Answer(w, u, pool) == Closure(w.blocks, u)
  }

  // What makes a whole answer wrong: a block that re-creates a vanished key with one member while u has
  // others, or whose update is lost; an unblock that takes a member out although the block the other way
  // stands, or whose update is lost; and, for a reader without a pool, an expiry.
  predicate Harms(w: World, c: Command, u: UserId, pool: bool) {
    Effective(w, c) &&
    match c
    case BlockUser(_, _, cached) =>
      Other(c, u).Some? &&
      var v := Other(c, u).value;
      if cached then u !in w.cache && !(Closure(w.blocks, u) <= {v})
      else v !in Members(w.cache, u) && (u in w.cache || !pool)
    case UnblockUser(a, b, cached) =>
      Other(c, u).Some? && u in w.cache &&
      if cached then (b, a) in w.blocks && (w.cache[u] != {Other(c, u).value} || !pool)
      else (b, a) !in w.blocks
    case Expire(x) => !pool && x == u && Closure(w.blocks, u) != {}
    case _ => false
  }

  lemma BlockKeepsWholeIff(w: World, c: Command, u: UserId, pool: bool)
    requires Tidy(w) && Whole(w, u, pool) && c.BlockUser? && Effective(w, c)
    ensures Whole(Apply(w, c), u, pool) <==> !Harms(w, c, u, pool)
  {
    AddBlockMembers(w.cache, c.blocker, c.blocked, u);
    ClosureAfterBlock(w.blocks, c.blocker, c.blocked, u);
  }

  lemma UnblockKeepsWholeIff(w: World, c: Command, u: UserId, pool: bool)
    requires Tidy(w) && Whole(w, u, pool) && c.UnblockUser? && Effective(w, c)
    ensures Whole(Apply(w, c), u, pool) <==> !Harms(w, c, u, pool)
  {
    var a, b := c.blocker, c.blocked;
    assert a != b by {
      assert (a, b).0 == a && (a, b).1 == b;
    }
    RemoveBlockMembers(w.cache, a, b, u);
    ClosureAfterUnblock(w.blocks, a, b, u);
    assert u in w.cache ==> Members(w.cache, u) != {};
  }

  /** An answer that is the closure stays it after a call if and only if the call does no harm. */
  lemma StaysWholeIff(w: World, c: Command, u: UserId, pool: bool)
    requires Tidy(w) && Whole(w, u, pool)
    ensures Whole(Apply(w, c), u, pool) <==> !Harms(w, c, u, pool)
  {
    if Effective(w, c) {
      match c
      case BlockUser(_, _, _) => BlockKeepsWholeIff(w, c, u, pool);
      case UnblockUser(_, _, _) => UnblockKeepsWholeIff(w, c, u, pool);
      case WarmUp => WarmedMembers(w, u);
      case Expire(x) => assert u in w.cache ==> Members(w.cache, u) != {};
      case _ =>
    }
  }

  ghost predicate AlwaysWhole(run: Run, u: UserId, pool: bool) {
    Whole(Exec(run), u, pool) && (run.Then? ==> AlwaysWhole(run.before, u, pool))
  }

  ghost predicate NeverHarmed(run: Run, u: UserId, pool: bool) {
    run.Then? ==> NeverHarmed(run.before, u, pool) && !Harms(Exec(run.before), run.cmd, u, pool)
  }

  /** At every moment of a run a reader gets exactly the closure, with a pool or without one, if and only if
      no call has harmed the user for that kind of reader. */
  lemma {:induction false} WholeIff(run: Run, u: UserId, pool: bool)
    ensures AlwaysWhole(run, u, pool) <==> NeverHarmed(run, u, pool)
  {
    if run.Then? {
      WholeIff(run.before, u, pool);
      RunStaysTidy(run.before);
      if AlwaysWhole(run.before, u, pool) {
        StaysWholeIff(Exec(run.before), run.cmd, u, pool);
      }
    } else {
      assert forall v :: v !in Closure({}, u);
    }
  }

  /** A user no call has harmed: with a pool the answer is the closure, whatever expires; without one it is,
      if and only if the key is there or nobody is blocked either way. */
  lemma UnharmedIsWhole(run: Run, u: UserId)
    requires NeverHarmed(run, u, true)
    ensures Whole(Exec(run), u, true)
    ensures Whole(Exec(run), u, false) <==> u in Exec(run).cache || Closure(Exec(run).blocks, u) == {}
  {
    WholeIff(run, u, true);
  }

  // ---- Without expiry and mutual blocks every cached set is the closure ----

  // Nothing expires, no block is mutual, no cache update fails.
  predicate NoExpiryNoMutual(run: Run) {
    run.Then? ==>
      && NoExpiryNoMutual(run.before)
      && !run.cmd.Expire?
      && (run.cmd.BlockUser? ==> run.cmd.cached && (run.cmd.blocked, run.cmd.blocker) !in Exec(run.before).blocks)
      && (run.cmd.UnblockUser? ==> run.cmd.cached)
  }

  ghost predicate NoMutual(blocks: set<Block>) {
    forall b <- blocks :: (b.1, b.0) !in blocks
  }

  /** From an empty table on, with no expiry, no mutual blocks and no failing update, every block and unblock
      keeps every cached set equal to the closure. */
  lemma {:induction false} CacheEqualsClosure(run: Run, u: UserId)
    requires NoExpiryNoMutual(run)
    ensures NoMutual(Exec(run).blocks)
    ensures Members(Exec(run).cache, u) == Closure(Exec(run).blocks, u)
  {
    if run.Then? {
      CacheEqualsClosure(run.before, u);
      RunStaysTidy(run.before);
      FullStep(Exec(run.before), run.cmd, u);
    } else {
      assert forall v :: v !in Closure({}, u);
    }
  }

  lemma FullStep(w: World, c: Command, u: UserId)
    requires Tidy(w) && NoMutual(w.blocks) && Members(w.cache, u) == Closure(w.blocks, u) && !c.Expire?
    requires c.BlockUser? ==> c.cached && (c.blocked, c.blocker) !in w.blocks
    requires c.UnblockUser? ==> c.cached
    ensures NoMutual(Apply(w, c).blocks)
    ensures Members(Apply(w, c).cache, u) == Closure(Apply(w, c).blocks, u)
  {
    assert u in w.cache ==> Members(w.cache, u) != {};
    if Effective(w, c) {
      match c
      case BlockUser(a, b, _) =>
        AddBlockMembers(w.cache, a, b, u);
        ClosureAfterBlock(w.blocks, a, b, u);
      case UnblockUser(a, b, _) =>
        assert a != b && (b, a) !in w.blocks by {
          assert (a, b).0 == a && (a, b).1 == b;
        }
        RemoveBlockMembers(w.cache, a, b, u);
        ClosureAfterUnblock(w.blocks, a, b, u);
      case WarmUp => WarmedMembers(w, u);
      case _ =>
    }
  }

  /** A warm-up makes the set of a user whole again, whatever was lost before, if and only if nobody is
      stranded in it. */
  lemma WarmUpRepairsIff(w: World, u: UserId)
    ensures Members(Apply(w, WarmUp).cache, u) == Closure(w.blocks, u) <==> Sound(w, u)
  {
    WarmedMembers(w, u);
  }

  // ---- Where the answer is not the closure ----

  // The commands below, with updates that get through.
  function Blocks(a: UserId, b: UserId): Command {
    BlockUser(a, b, true)
  }

  /** A key expires, the user blocks someone else: the earlier block is hidden. */
  lemma ExpiredKeyHidesBlock() returns (run: Run)
    ensures Answer(Exec(run), 1, true) == {3} && Closure(Exec(run).blocks, 1) == {2, 3}
  {
    run := Then(Then(Then(Start, Blocks(1, 2)), Expire(1)), Blocks(1, 3));
    var w := Exec(Then(Then(Start, Blocks(1, 2)), Expire(1)));
    assert w.blocks == {(1, 2)} && 1 !in w.cache;
    assert Exec(run).blocks == {(1, 2), (1, 3)};
    AddBlockMembers(w.cache, 1, 3, 1);
    forall v {
      InClosure(Exec(run).blocks, 1, v);
    }
  }

  /** A key expires: a reader without a pool is told that nobody is blocked. */
  lemma MissHidesBlock() returns (run: Run)
    ensures NeverHarmed(run, 1, true)
    ensures Answer(Exec(run), 1, false) == {} && Closure(Exec(run).blocks, 1) == {2}
  {
    var first := Then(Start, Blocks(1, 2));
    run := Then(first, Expire(1));
    assert Exec(first).blocks == {(1, 2)};
    assert !Harms(Exec(Start), Blocks(1, 2), 1, true);
    forall v {
      InClosure(Exec(run).blocks, 1, v);
    }
  }

  /** An unblock commits and its cache update fails: the other one stays reported. */
  lemma LostUpdateReports(pool: bool) returns (run: Run)
    ensures Answer(Exec(run), 1, pool) == {2} && Exec(run).blocks == {}
  {
    var first := Then(Start, Blocks(1, 2));
    run := Then(first, UnblockUser(1, 2, false));
    AddBlockMembers(map[], 1, 2, 1);
    assert Exec(first).blocks == {(1, 2)} && Exec(run).cache == Exec(first).cache;
  }

  /** Two users block each other and one lifts the block: the other block is hidden, if a third
      party keeps the key alive. */
  lemma MutualUnblockHidesBlock() returns (run: Run)
    ensures Answer(Exec(run), 1, true) == {3} && Closure(Exec(run).blocks, 1) == {2, 3}
  {
    var r1 := Then(Start, Blocks(1, 2));
    var r2 := Then(r1, Blocks(2, 1));
    var r3 := Then(r2, Blocks(1, 3));
    run := Then(r3, UnblockUser(1, 2, true));
    assert Exec(r1) == World({(1, 2)}, AddBlock(map[], (1, 2)));
    assert Exec(r2) == World({(1, 2), (2, 1)}, AddBlock(Exec(r1).cache, (2, 1)));
    assert Exec(r3) == World({(1, 2), (2, 1), (1, 3)}, AddBlock(Exec(r2).cache, (1, 3)));
    assert Exec(run) == World({(2, 1), (1, 3)}, RemoveBlock(Exec(r3).cache, (1, 2)));
    hide Exec;
    AddBlockMembers(map[], 1, 2, 1);
    AddBlockMembers(Exec(r1).cache, 2, 1, 1);
    AddBlockMembers(Exec(r2).cache, 1, 3, 1);
    RemoveBlockMembers(Exec(r3).cache, 1, 2, 1);
    assert Members(Exec(r3).cache, 1) - {2} == {3};
    forall v {
      InClosure(Exec(run).blocks, 1, v);
    }
  }

  // ---- The functions ----

  // The first n rows added one after the other.
  function AddRows(cache: Cache, rows: seq<Block>, n: nat): Cache
    requires n <= |rows|
  {
    if n == 0 then cache
    else AddBlock(AddRows(cache, rows, n - 1), rows[n - 1])
  }

  lemma AddRowsNext(cache: Cache, rows: seq<Block>, n: nat)
    requires n < |rows|
    ensures AddBlock(AddRows(cache, rows, n), rows[n]) == AddRows(cache, rows, n + 1)
  {
  }

  lemma {:induction false} AddRowsMembers(cache: Cache, rows: seq<Block>, n: nat, u: UserId, v: UserId)
    requires n <= |rows|
    ensures v in Members(AddRows(cache, rows, n), u) <==>
      v in Members(cache, u) || (u, v) in rows[..n] || (v, u) in rows[..n]
  {
    if n > 0 {
      AddRowsMembers(cache, rows, n - 1, u, v);
      assert rows[..n] == rows[..n - 1] + [rows[n - 1]];
    }
  }

  lemma {:induction false} AddRowsKeepsNoEmptySet(cache: Cache, rows: seq<Block>, n: nat)
    requires n <= |rows| && NoEmptySet(cache)
    ensures NoEmptySet(AddRows(cache, rows, n))
  {
    if n > 0 {
      AddRowsKeepsNoEmptySet(cache, rows, n - 1);
    }
  }

  lemma AddRowsIsWarmed(cache: Cache, rows: seq<Block>, blocks: set<Block>)
    requires NoEmptySet(cache) && forall b :: b in rows <==> b in blocks
    ensures AddRows(cache, rows, |rows|) == Warmed(cache, blocks)
  {
    var after := AddRows(cache, rows, |rows|);
    AddRowsKeepsNoEmptySet(cache, rows, |rows|);
    assert rows[..|rows|] == rows;
    forall u: UserId
      ensures Members(after, u) == Members(cache, u) + Closure(blocks, u)
      ensures u in after <==> u in Warmed(cache, blocks)
    {
      forall v: UserId
        ensures v in Members(after, u) <==> v in Members(cache, u) + Closure(blocks, u)
      {
        AddRowsMembers(cache, rows, |rows|, u, v);
        InClosure(blocks, u, v);
      }
      assert Members(after, u) == Members(cache, u) + Closure(blocks, u);
      EndpointHasBlock(blocks, u);
    }
  }

  /** warmup_block_cache over a table that does not change meanwhile: rows is ORDER BY blocker_id,
      blocked_id, read in LIMIT/OFFSET batches. Every row is added to the sets of both users. */
  method WarmUpBlockCache(rows: seq<Block>, cache0: Cache) returns (cache: Cache)
    ensures cache == AddRows(cache0, rows, |rows|)
  {
    cache := cache0;
    var offset := 0;
    while true
      invariant cache == AddRows(cache0, rows, Min(offset, |rows|))
      decreases |rows| + BATCH_SIZE - offset
    {
      var batch := rows[Min(offset, |rows|)..Min(offset + BATCH_SIZE, |rows|)];
      if |batch| == 0 {
        break;
      }
      cache := WarmBatch(rows, offset, batch, cache0, cache);
      offset := offset + BATCH_SIZE;
      if |batch| < BATCH_SIZE {
        break;
      }
    }
  }

  method WarmBatch(ghost rows: seq<Block>, ghost offset: nat, batch: seq<Block>, ghost cache0: Cache,
      cache1: Cache) returns (cache: Cache)
    requires offset + |batch| <= |rows| && batch == rows[offset..offset + |batch|]
    requires cache1 == AddRows(cache0, rows, offset)
    ensures cache == AddRows(cache0, rows, offset + |batch|)
  {
    cache := cache1;
    for i := 0 to |batch|
      invariant cache == AddRows(cache0, rows, offset + i)
    {
      assert batch[i] == rows[offset + i];
      AddRowsNext(cache0, rows, offset + i);
      cache := AddBlock(cache, batch[i]);
    }
  }

  const MAX_BLOCKS_PER_USER: nat := 5

  function BlocksOf(blocks: set<Block>, u: UserId): set<Block> {
    set b <- blocks | b.0 == u
  }

  lemma BlocksOfChange(blocks: set<Block>, u: UserId, v: UserId, w: UserId)
    ensures |BlocksOf(blocks + {(u, v)}, w)| <= |BlocksOf(blocks, w)| + if w == u then 1 else 0
    ensures |BlocksOf(blocks - {(u, v)}, w)| <= |BlocksOf(blocks, w)|
  {
    var more := BlocksOf(blocks + {(u, v)}, w);
    assert w != u ==> more == BlocksOf(blocks, w);
    assert w == u ==> more == BlocksOf(blocks, w) + {(u, v)};
    var fewer := BlocksOf(blocks - {(u, v)}, w);
    assert fewer == BlocksOf(blocks, w) - {(u, v)};
  }

  // The other one of the two, if u is one of them.
  function Partner(a: UserId, b: UserId, u: UserId): set<UserId> {
    if u == a then {b} else if u == b then {a} else {}
  }

  datatype CallResult = Done | Refused | Raised

  class BlockService {
    var blocks: set<Block>
    var cache: Cache
    ghost var log: Run

    ghost function Current(): World
      reads this
    {
      World(blocks, cache)
    }

    ghost predicate Valid()
      reads this
    {
      Current() == Exec(log) && forall u: UserId :: |BlocksOf(blocks, u)| <= MAX_BLOCKS_PER_USER
    }

    constructor ()
      ensures Valid() && log == Start
    {
      blocks, cache, log := {}, map[], Start;
      assert forall u: UserId :: BlocksOf({}, u) == {};
    }

    /** get_blocked_user_ids: rows is what the database lists for u, in any order; dbUp says whether it
        could be read and the cache filled. */
    method GetBlockedUserIds(u: UserId, rows: seq<Block>, pool: bool, dbUp: bool) returns (result: set<UserId>)
      requires Valid()
      requires forall b :: b in rows <==> b in blocks && (b.0 == u || b.1 == u)
      modifies this`cache, this`log
      ensures Valid() && log == if u !in old(cache) && pool && dbUp then Then(old(log), Get(u)) else old(log)
      ensures u !in old(cache) && pool && dbUp && rows != [] ==> cache == old(cache)[u := result]
      ensures !(u !in old(cache) && pool && dbUp && rows != []) ==> cache == old(cache)
      ensures result == Answer(old(Current()), u, pool && dbUp)
      ensures NeverStranded(old(log), u) ==> result <= Closure(blocks, u)
      ensures NeverHarmed(old(log), u, pool && dbUp) ==> result == Closure(blocks, u)
    {
      SoundIff(log, u);
      WholeIff(log, u, pool && dbUp);
      if u in cache {
        return cache[u];
      }
      if !pool || !dbUp {
        return {};
      }
      result := OthersOf(u, rows);
      assert result == Closure(blocks, u) by {
        forall v {
          InClosure(blocks, u, v);
        }
      }
      if rows != [] {
        assert result != {} by {
          EndpointHasBlock(blocks, u);
          assert rows[0] in blocks;
        }
        assert Members(cache, u) + result == result;
        cache := Fill(cache, u, result);
      } else {
        assert result == {};
      }
      log := Then(log, Get(u));
    }

    // update_block_cache: one MULTI, all or nothing.
    method Update(blocker: UserId, blocked: UserId, added: bool, redisUp: bool)
      modifies this`cache
      ensures cache == if !redisUp then old(cache) else if added then AddBlock(old(cache), (blocker, blocked))
                       else RemoveBlock(old(cache), (blocker, blocked))
    {
      if redisUp && added {
        cache := SAdd(cache, blocker, blocked);
        cache := SAdd(cache, blocked, blocker);
      } else if redisUp {
        cache := SRem(cache, blocker, blocked);
        cache := SRem(cache, blocked, blocker);
      }
    }

    // block_user; Refused stands for blocking oneself, the limit and blocking twice.
    method BlockUser(blocker: UserId, blocked: UserId, redisUp: bool) returns (result: CallResult)
      requires Valid()
      modifies this
      ensures Valid() && |BlocksOf(blocks, blocker)| <= MAX_BLOCKS_PER_USER
      ensures result != Refused <==>
        blocker != blocked && |BlocksOf(old(blocks), blocker)| < MAX_BLOCKS_PER_USER && (blocker, blocked) !in old(blocks)
      ensures result != Refused ==> (result == Raised <==> !redisUp)
      ensures result == Refused ==> Current() == old(Current()) && log == old(log)
      ensures result != Refused ==> blocks == old(blocks) + {(blocker, blocked)}
      ensures result == Done ==>
        forall u: UserId :: Members(cache, u) == old(Members(cache, u)) + Partner(blocker, blocked, u)
      ensures result == Raised ==> cache == old(cache)
      ensures result != Refused ==> log == Then(old(log), Command.BlockUser(blocker, blocked, redisUp))
      ensures forall u, pool :: NeverHarmed(log, u, pool) ==> Whole(Current(), u, pool)
    {
      var count := |BlocksOf(blocks, blocker)|;
      result := Refused;
      if blocker != blocked && count < MAX_BLOCKS_PER_USER && (blocker, blocked) !in blocks {
        Insert(blocker, blocked);
        Update(blocker, blocked, true, redisUp);
        forall u: UserId {
          AddBlockMembers(old(cache), blocker, blocked, u);
        }
        log := Then(log, Command.BlockUser(blocker, blocked, redisUp));
        result := if redisUp then Done else Raised;
      }
      forall u, pool | NeverHarmed(log, u, pool) {
        WholeIff(log, u, pool);
      }
    }

    method Insert(blocker: UserId, blocked: UserId)
      requires forall u: UserId :: |BlocksOf(blocks, u)| <= MAX_BLOCKS_PER_USER
      requires |BlocksOf(blocks, blocker)| < MAX_BLOCKS_PER_USER
      modifies this`blocks
      ensures blocks == old(blocks) + {(blocker, blocked)}
      ensures forall u: UserId :: |BlocksOf(blocks, u)| <= MAX_BLOCKS_PER_USER
    {
      forall u: UserId
        ensures |BlocksOf(blocks + {(blocker, blocked)}, u)| <= MAX_BLOCKS_PER_USER
      {
        BlocksOfChange(blocks, blocker, blocked, u);
      }
      blocks := blocks + {(blocker, blocked)};
    }

    // unblock_user; Refused if there is no such block. A cache update that fails raises after the commit.
    method UnblockUser(blocker: UserId, blocked: UserId, redisUp: bool) returns (result: CallResult)
      requires Valid()
      modifies this
      ensures Valid() && log == Then(old(log), Command.UnblockUser(blocker, blocked, redisUp))
      ensures result != Refused <==> (blocker, blocked) in old(blocks)
      ensures result != Refused ==> (result == Raised <==> !redisUp)
      ensures result == Refused ==> Current() == old(Current())
      ensures result != Refused ==> blocks == old(blocks) - {(blocker, blocked)}
      ensures result == Done ==>
        forall u: UserId :: Members(cache, u) == old(Members(cache, u)) - Partner(blocker, blocked, u)
      ensures result == Raised ==> cache == old(cache)
      ensures forall pool :: result == Done ==>
        blocked !in Answer(Current(), blocker, pool) || (blocked, blocker) in blocks
      ensures forall pool :: result == Raised && blocker in cache ==>
        Answer(Current(), blocker, pool) == Answer(old(Current()), blocker, pool)
    {
      result := Refused;
      if (blocker, blocked) in blocks {
        forall u: UserId {
          BlocksOfChange(blocks, blocker, blocked, u);
        }
        RunStaysTidy(log);
        assert blocker != blocked by {
          assert (blocker, blocked).0 == blocker && (blocker, blocked).1 == blocked;
        }
        forall u: UserId {
          RemoveBlockMembers(cache, blocker, blocked, u);
        }
        blocks := blocks - {(blocker, blocked)};
        Update(blocker, blocked, false, redisUp);
        InClosure(blocks, blocker, blocked);
        result := if redisUp then Done else Raised;
      }
      log := Then(log, Command.UnblockUser(blocker, blocked, redisUp));
    }

    method WarmUp(rows: seq<Block>)
      requires Valid() && forall b :: b in rows <==> b in blocks
      modifies this`cache, this`log
      ensures Valid() && log == Then(old(log), Command.WarmUp)
      ensures forall u :: Members(cache, u) == old(Members(cache, u)) + Closure(blocks, u)
      ensures forall u :: NeverStranded(old(log), u) ==> Members(cache, u) == Closure(blocks, u)
    {
      RunStaysTidy(log);
      ghost var before := Current();
      cache := WarmUpBlockCache(rows, cache);
      AddRowsIsWarmed(before.cache, rows, blocks);
      hide Warmed, Closure;
      forall u: UserId
        ensures Members(cache, u) == Members(before.cache, u) + Closure(blocks, u)
        ensures NeverStranded(log, u) ==> Members(cache, u) == Closure(blocks, u)
      {
        WarmedMembers(before, u);
        SoundIff(log, u);
      }
      log := Then(log, Command.WarmUp);
    }
  }

  method OthersOf(u: UserId, rows: seq<Block>) returns (others: set<UserId>)
    requires forall b <- rows :: b.0 == u || b.1 == u
    ensures forall v :: v in others <==> (u, v) in rows || (v, u) in rows
  {
    others := {};
    for i := 0 to |rows|
      invariant forall v :: v in others <==> (u, v) in rows[..i] || (v, u) in rows[..i]
    {
      var other := if rows[i].0 == u then rows[i].1 else rows[i].0;
      others := others + {other};
    }
  }
}
