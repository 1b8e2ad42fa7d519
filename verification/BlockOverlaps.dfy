/** The block cache under overlapping calls (backend/app/core/blacklist.py and the block functions of
    backend/app/services/social.py): a block or unblock changes the table first and the cache later, a
    reader that misses fetches rows first and fills the cache later, and other calls run in between. */
module BlockOverlaps {
  import opened Basics
  import opened BlockCache

  type ReaderId = nat

  // (u, v): v belongs into the set of u.
  type Entry = (UserId, UserId)

  // adding, removing: calls between their table step and their cache step. fetched: what readers will add.
  datatype Shared = Shared(
    blocks: set<Block>, cache: Cache, adding: multiset<Block>, removing: multiset<Block>, fetched: map<ReaderId, set<Entry>>)

  datatype Step =
    | TableBlock(blocker: UserId, blocked: UserId)
    | CacheBlock(blocker: UserId, blocked: UserId)     // SADD both ways
    | TableUnblock(blocker: UserId, blocked: UserId)
    | CacheUnblock(blocker: UserId, blocked: UserId)   // SREM both ways
    | LoseBlock(blocker: UserId, blocked: UserId)      // its cache step fails, or the process ends before it
    | LoseUnblock(blocker: UserId, blocked: UserId)
    | Fetch(reader: ReaderId, entries: set<Entry>)     // rows of one user, or of all for a warm-up
    | FillIn(reader: ReaderId)                         // SADD each
    | Vanish(u: UserId)                                // the key expires

  predicate Related(blocks: set<Block>, u: UserId, v: UserId) {
    (u, v) in blocks || (v, u) in blocks
  }

  predicate Legal(s: Shared, c: Step) {
    match c
    case TableBlock(a, b) => a != b && (a, b) !in s.blocks
    case CacheBlock(a, b) => s.adding[(a, b)] > 0
    case TableUnblock(a, b) => (a, b) in s.blocks
    case CacheUnblock(a, b) => s.removing[(a, b)] > 0
    case LoseBlock(a, b) => s.adding[(a, b)] > 0
    case LoseUnblock(a, b) => s.removing[(a, b)] > 0
    case Fetch(r, entries) => r !in s.fetched && forall e <- entries :: Related(s.blocks, e.0, e.1)
    case FillIn(r) => r in s.fetched
    case Vanish(_) => true
  }

  function Filled(cache: Cache, entries: set<Entry>): Cache {
    map u | u in cache.Keys + (set e <- entries :: e.0) :: Members(cache, u) + EntriesOf(entries, u)
  }

  function EntriesOf(entries: set<Entry>, u: UserId): set<UserId> {
    set e <- entries | e.0 == u :: e.1
  }

  // A step that is not legal does nothing.
  function Do(s: Shared, c: Step): Shared {
    if !Legal(s, c) then s else
    match c
    case TableBlock(a, b) => s.(blocks := s.blocks + {(a, b)}, adding := s.adding + multiset{(a, b)})
    case CacheBlock(a, b) => s.(cache := AddBlock(s.cache, (a, b)), adding := s.adding - multiset{(a, b)})
    case TableUnblock(a, b) => s.(blocks := s.blocks - {(a, b)}, removing := s.removing + multiset{(a, b)})
    case CacheUnblock(a, b) => s.(cache := RemoveBlock(s.cache, (a, b)), removing := s.removing - multiset{(a, b)})
    case LoseBlock(a, b) => s.(adding := s.adding - multiset{(a, b)})
    case LoseUnblock(a, b) => s.(removing := s.removing - multiset{(a, b)})
    case Fetch(r, entries) => s.(fetched := s.fetched[r := entries])
    case FillIn(r) => s.(cache := Filled(s.cache, s.fetched[r]), fetched := s.fetched - {r})
    case Vanish(u) => s.(cache := s.cache - {u})
  }

  const NOTHING: Shared := Shared({}, map[], multiset{}, multiset{}, map[])

  type Steps = RunOf<Step>

  function Outcome(run: Steps): Shared {
    match run
    case Start => NOTHING
    case Then(before, c) => Do(Outcome(before), c)
  }

  predicate LegalSteps(run: Steps) {
    run.Then? ==> LegalSteps(run.before) && Legal(Outcome(run.before), run.cmd)
  }

  // ---- Who is reported without a block ----

  // An unblock of the two has yet to take them out of the cache.
  predicate Leaving(s: Shared, u: UserId, v: UserId) {
    s.removing[(u, v)] > 0 || s.removing[(v, u)] > 0
  }

  predicate Justified(s: Shared, u: UserId, v: UserId) {
    Related(s.blocks, u, v) || Leaving(s, u, v)
  }

  // Whoever is in a cached set is blocked, or about to be taken out.
  ghost predicate Covered(s: Shared) {
    forall u <- s.cache, v <- s.cache[u] :: Justified(s, u, v)
  }

  // The step adds somebody to a set whose block has been lifted in the table and in the cache already, or
  // gives up taking out somebody who is in a set.
  ghost predicate Late(s: Shared, c: Step) {
    match c
    case CacheBlock(a, b) => Legal(s, c) && !Justified(s, a, b)
    case FillIn(r) => Legal(s, c) && exists e <- s.fetched[r] :: !Justified(s, e.0, e.1)
    case LoseUnblock(a, b) =>
      Legal(s, c) && !Justified(Do(s, c), a, b) && (b in Members(s.cache, a) || a in Members(s.cache, b))
    case _ => false
  }

  lemma LoseUnblockCovered(s: Shared, a: UserId, b: UserId)
    requires Covered(s) && Legal(s, LoseUnblock(a, b))
    ensures Covered(Do(s, LoseUnblock(a, b))) <==> !Late(s, LoseUnblock(a, b))
  {
    var next := Do(s, LoseUnblock(a, b));
    forall u: UserId, v: UserId | (u, v) != (a, b) && (v, u) != (a, b)
      ensures Justified(next, u, v) == Justified(s, u, v)
    {
      assert next.removing[(u, v)] == s.removing[(u, v)] && next.removing[(v, u)] == s.removing[(v, u)];
    }
    assert Justified(next, a, b) == Justified(next, b, a);
    if Late(s, LoseUnblock(a, b)) {
      assert b in Members(s.cache, a) ==> a in next.cache && b in next.cache[a];
      assert a in Members(s.cache, b) ==> b in next.cache && a in next.cache[b];
    } else {
      forall u <- next.cache, v <- next.cache[u]
        ensures Justified(next, u, v)
      {
        assert v in Members(s.cache, u) && Justified(s, u, v);
      }
    }
  }

  lemma CacheBlockCovered(s: Shared, a: UserId, b: UserId)
    requires Covered(s) && Legal(s, CacheBlock(a, b))
    ensures Covered(Do(s, CacheBlock(a, b))) <==> Justified(s, a, b)
  {
    var next := Do(s, CacheBlock(a, b));
    assert b in next.cache[a];
    assert forall u, v :: Justified(next, u, v) == Justified(s, u, v);
    if Justified(s, a, b) {
      forall u <- next.cache, v <- next.cache[u]
        ensures Justified(s, u, v)
      {
        assert v in Members(s.cache, u) || (u, v) == (a, b) || (v, u) == (a, b);
      }
    }
  }

  lemma FillCovered(s: Shared, r: ReaderId)
    requires Covered(s) && Legal(s, FillIn(r))
    ensures Covered(Do(s, FillIn(r))) <==> forall e <- s.fetched[r] :: Justified(s, e.0, e.1)
  {
    var next := Do(s, FillIn(r));
    assert forall u, v :: Justified(next, u, v) == Justified(s, u, v);
    forall e <- s.fetched[r]
      ensures e.0 in next.cache && e.1 in next.cache[e.0]
    {
      assert e.1 in EntriesOf(s.fetched[r], e.0);
    }
    if forall e <- s.fetched[r] :: Justified(s, e.0, e.1) {
      forall u <- next.cache, v <- next.cache[u]
        ensures Justified(s, u, v)
      {
        if v !in Members(s.cache, u) {
          assert v in EntriesOf(s.fetched[r], u) && (u, v) in s.fetched[r];
        }
      }
    }
  }

  lemma UnblockCovered(s: Shared, a: UserId, b: UserId)
    requires Covered(s) && Legal(s, CacheUnblock(a, b))
    ensures Covered(Do(s, CacheUnblock(a, b)))
  {
    var next := Do(s, CacheUnblock(a, b));
    forall u <- next.cache, v <- next.cache[u]
      ensures Justified(next, u, v)
    {
      MembersAfterSRem(s.cache, a, b, u);
      MembersAfterSRem(SRem(s.cache, a, b), b, a, u);
      assert v in Members(next.cache, u);
      assert v in Members(s.cache, u) && (u, v) != (a, b) && (v, u) != (a, b);
      assert next.removing[(u, v)] == s.removing[(u, v)] && next.removing[(v, u)] == s.removing[(v, u)];
    }
  }

  /** A step keeps the cache covered if and only if it is not late. */
  lemma StaysCoveredIff(s: Shared, c: Step)
    requires Covered(s)
    ensures Covered(Do(s, c)) <==> !Late(s, c)
  {
    if Legal(s, c) {
      match c
      case CacheBlock(a, b) => CacheBlockCovered(s, a, b);
      case FillIn(r) => FillCovered(s, r);
      case CacheUnblock(a, b) => UnblockCovered(s, a, b);
      case LoseUnblock(a, b) => LoseUnblockCovered(s, a, b);
      case TableUnblock(a, b) =>
        var next := Do(s, c);
        assert forall u, v :: Justified(s, u, v) ==> Justified(next, u, v);
      case _ =>
    }
  }

  ghost predicate AlwaysCovered(run: Steps) {
    Covered(Outcome(run)) && (run.Then? ==> AlwaysCovered(run.before))
  }

  ghost predicate NeverLate(run: Steps) {
    run.Then? ==> NeverLate(run.before) && !Late(Outcome(run.before), run.cmd)
  }

  /** At every moment of a run everybody reported from the cache is blocked or being taken out, if and only
      if no step of the run adds anybody late or gives up taking somebody out. */
  lemma {:induction false} CoveredIff(run: Steps)
    ensures AlwaysCovered(run) <==> NeverLate(run)
  {
    if run.Then? {
      CoveredIff(run.before);
      if AlwaysCovered(run.before) {
        StaysCoveredIff(Outcome(run.before), run.cmd);
      }
    }
  }

  /** Once no unblock is under way, nobody outside the closure is reported. */
  lemma SettledIsSafe(run: Steps, u: UserId, v: UserId)
    requires NeverLate(run) && Outcome(run).removing == multiset{}
    requires v in Members(Outcome(run).cache, u)
    ensures v in Closure(Outcome(run).blocks, u)
  {
    CoveredIff(run);
    InClosure(Outcome(run).blocks, u, v);
    assert Justified(Outcome(run), u, v);
  }

  // ---- Keeping unblocks apart from what they cross ----

  // When an unblock changes the table, nobody is about to add the two to each other's sets, and its cache
  // step follows some time.
  ghost predicate Separate(run: Steps) {
    run.Then? ==>
      && Separate(run.before) && !run.cmd.LoseUnblock?
      && (run.cmd.TableUnblock? ==> Uncrossed(Outcome(run.before), run.cmd.blocker, run.cmd.blocked))
  }

  ghost predicate Uncrossed(s: Shared, a: UserId, b: UserId) {
    && s.adding[(a, b)] == 0 && s.adding[(b, a)] == 0
    && forall r <- s.fetched :: (a, b) !in s.fetched[r] && (b, a) !in s.fetched[r]
  }

  // Whoever is about to be added is blocked.
  ghost predicate Ready(s: Shared) {
    && (forall p <- s.adding :: Related(s.blocks, p.0, p.1))
    && (forall r <- s.fetched, e <- s.fetched[r] :: Related(s.blocks, e.0, e.1))
  }

  lemma StepStaysReady(s: Shared, c: Step)
    requires Ready(s) && (c.TableUnblock? ==> Uncrossed(s, c.blocker, c.blocked))
    ensures Ready(Do(s, c))
  {
    var next := Do(s, c);
    if Legal(s, c) && c.TableUnblock? {
      forall p <- next.adding
        ensures Related(next.blocks, p.0, p.1)
      {
        assert p in s.adding && p != (c.blocker, c.blocked) && p != (c.blocked, c.blocker);
      }
      forall r <- next.fetched, e <- next.fetched[r]
        ensures Related(next.blocks, e.0, e.1)
      {
        assert e != (c.blocker, c.blocked) && e != (c.blocked, c.blocker);
      }
    }
  }

  /** If no unblock crosses a block or a reader of the same two users or loses its cache step, nothing is
      late: blocks, readers, warm-ups and unblocks of other pairs may overlap as they like. */
  lemma {:induction false} SeparateIsNeverLate(run: Steps)
    requires Separate(run)
    ensures Ready(Outcome(run)) && NeverLate(run)
  {
    if run.Then? {
      SeparateIsNeverLate(run.before);
      StepStaysReady(Outcome(run.before), run.cmd);
    }
  }

  // ---- One call at a time ----

  // The table and the cache after a call of the sequential model.
  function CalledAlone(s: Shared, c: Command): Shared {
    var after := Apply(World(s.blocks, s.cache), c);
    s.(blocks := after.blocks, cache := after.cache)
  }

  function SecondOfBlock(a: UserId, b: UserId, cached: bool): Step {
    if cached then CacheBlock(a, b) else LoseBlock(a, b)
  }

  function SecondOfUnblock(a: UserId, b: UserId, cached: bool): Step {
    if cached then CacheUnblock(a, b) else LoseUnblock(a, b)
  }

  /** A block, an unblock or a read whose two steps follow each other is the call of the sequential model,
      whether or not the cache step gets through. */
  lemma CallsInOnePiece(s: Shared, a: UserId, b: UserId, cached: bool, u: UserId, r: ReaderId)
    requires r !in s.fetched && u !in s.cache
    ensures Legal(s, TableBlock(a, b)) ==>
      Do(Do(s, TableBlock(a, b)), SecondOfBlock(a, b, cached)) == CalledAlone(s, BlockUser(a, b, cached))
    ensures Legal(s, TableUnblock(a, b)) ==>
      Do(Do(s, TableUnblock(a, b)), SecondOfUnblock(a, b, cached)) == CalledAlone(s, UnblockUser(a, b, cached))
    ensures var entries := set v <- Closure(s.blocks, u) :: (u, v);
      Do(Do(s, Fetch(r, entries)), FillIn(r)) == CalledAlone(s, Get(u))
  {
    hide Do, AddBlock, RemoveBlock;
    if Legal(s, TableBlock(a, b)) {
      BlockInOnePiece(s, a, b, cached);
    }
    if Legal(s, TableUnblock(a, b)) {
      UnblockInOnePiece(s, a, b, cached);
    }
    var entries := set v <- Closure(s.blocks, u) :: (u, v);
    ReadInOnePiece(s, u, r, entries);
  }

  lemma BlockInOnePiece(s: Shared, a: UserId, b: UserId, cached: bool)
    requires Legal(s, TableBlock(a, b))
    ensures Do(Do(s, TableBlock(a, b)), SecondOfBlock(a, b, cached)) == CalledAlone(s, BlockUser(a, b, cached))
  {
    hide AddBlock;
    assert s.adding + multiset{(a, b)} - multiset{(a, b)} == s.adding;
  }

  lemma UnblockInOnePiece(s: Shared, a: UserId, b: UserId, cached: bool)
    requires Legal(s, TableUnblock(a, b))
    ensures Do(Do(s, TableUnblock(a, b)), SecondOfUnblock(a, b, cached)) == CalledAlone(s, UnblockUser(a, b, cached))
  {
    hide RemoveBlock;
    assert s.removing + multiset{(a, b)} - multiset{(a, b)} == s.removing;
  }

  lemma ReadInOnePiece(s: Shared, u: UserId, r: ReaderId, entries: set<Entry>)
    requires r !in s.fetched && u !in s.cache && entries == set v <- Closure(s.blocks, u) :: (u, v)
    ensures Do(Do(s, Fetch(r, entries)), FillIn(r)) == s.(cache := Fill(s.cache, u, Closure(s.blocks, u)))
  {
    forall e <- entries
      ensures Related(s.blocks, e.0, e.1)
    {
      InClosure(s.blocks, e.0, e.1);
    }
    assert s.fetched[r := entries] - {r} == s.fetched;
    forall v
      ensures v in EntriesOf(entries, u) <==> v in Closure(s.blocks, u)
    {
      assert v in Closure(s.blocks, u) ==> (u, v) in entries;
    }
    FilledOne(s.cache, u, entries, Closure(s.blocks, u));
  }

  lemma FilledOne(cache: Cache, u: UserId, entries: set<Entry>, others: set<UserId>)
    requires entries == (set v <- others :: (u, v)) && u !in cache
    ensures Filled(cache, entries) == Fill(cache, u, others)
  {
    var after := Filled(cache, entries);
    assert (set e <- entries :: e.0) == if others == {} then {} else {u} by {
      if v :| v in others {
        assert (u, v) in entries;
      }
    }
    forall x <- after
      ensures after[x] == if x == u then others else cache[x]
    {
      assert forall v <- others :: (u, v) in entries;
      assert x == u ==> EntriesOf(entries, x) == others && Members(cache, x) == {};
      assert x != u ==> EntriesOf(entries, x) == {};
    }
    assert Members(cache, u) + others == others;
  }

  // ---- Overlaps that go wrong ----

  // The sets of users 1 and 2 after the cache steps below.
  lemma SmallCaches()
    ensures AddBlock(map[], (1, 2)) == map[1 := {2}, 2 := {1}]
    ensures RemoveBlock(map[], (1, 2)) == map[]
    ensures Filled(map[], {(1, 2)}) == map[1 := {2}]
  {
    var empty: Cache := map[];
    var one: set<UserId>, two: set<UserId> := {1}, {2};
    assert Members(empty, 1) + {2} == two && Members(map[1 := two], 2) + {1} == one;
    assert SAdd(empty, 1, 2) == map[1 := two] && SAdd(map[1 := two], 2, 1) == map[1 := two, 2 := one];
    assert SRem(empty, 1, 2) == empty && SRem(empty, 2, 1) == empty;
    var entries: set<Entry> := {(1, 2)};
    assert entries == set v <- two :: (1, v);
    FilledOne(empty, 1, entries, two);
    assert Fill(empty, 1, two) == map[1 := two];
  }

  lemma OneOff(b: Block)
    ensures multiset{b} - multiset{b} == multiset{}
  {
  }

  /** A reader fetches before an unblock and fills in after it: with no call under way any more, somebody
      stays reported whose block is gone. */
  lemma OverlapOverreaches() returns (run: Steps)
    ensures LegalSteps(run) && Outcome(run) == Shared({}, map[1 := {2}], multiset{}, multiset{}, map[])
  {
    SmallCaches();
    OneOff((1, 2));
    var r1 := Then(Start, TableBlock(1, 2));
    var r2 := Then(r1, CacheBlock(1, 2));
    var r3 := Then(r2, Vanish(1));
    assert Outcome(r1) == Shared({(1, 2)}, map[], multiset{(1, 2)}, multiset{}, map[]);
    assert Outcome(r2) == Shared({(1, 2)}, map[1 := {2}, 2 := {1}], multiset{}, multiset{}, map[]);
    assert Outcome(r3) == Shared({(1, 2)}, map[2 := {1}], multiset{}, multiset{}, map[]);
    var r4 := Then(r3, Vanish(2));
    assert Outcome(r4) == Shared({(1, 2)}, map[], multiset{}, multiset{}, map[]);
    run := CrossingUnblock(r4);
  }

  lemma CrossingUnblock(r4: Steps) returns (run: Steps)
    requires LegalSteps(r4) && Outcome(r4) == Shared({(1, 2)}, map[], multiset{}, multiset{}, map[])
    ensures LegalSteps(run) && Outcome(run) == Shared({}, map[1 := {2}], multiset{}, multiset{}, map[])
  {
    var both: set<Entry> := {(1, 2)};
    CrossingSteps(both);
    hide Do, Legal;
    var r5 := Then(r4, Fetch(0, both));
    var r6 := Then(r5, TableUnblock(1, 2));
    var r7 := Then(r6, CacheUnblock(1, 2));
    run := Then(r7, FillIn(0));
    assert LegalSteps(r5) && Outcome(r5) == Do(Outcome(r4), r5.cmd);
    assert LegalSteps(r6) && Outcome(r6) == Do(Outcome(r5), r6.cmd);
    assert LegalSteps(r7) && Outcome(r7) == Do(Outcome(r6), r7.cmd);
    assert Outcome(run) == Do(Outcome(r7), run.cmd);
  }

  lemma CrossingSteps(both: set<Entry>)
    requires both == {(1, 2)}
    ensures var s4 := Shared({(1, 2)}, map[], multiset{}, multiset{}, map[]);
      var s5 := Shared({(1, 2)}, map[], multiset{}, multiset{}, map[0 := both]);
      var s6 := Shared({}, map[], multiset{}, multiset{(1, 2)}, map[0 := both]);
      var s7 := Shared({}, map[], multiset{}, multiset{}, map[0 := both]);
      && Legal(s4, Fetch(0, both)) && Do(s4, Fetch(0, both)) == s5
      && Legal(s5, TableUnblock(1, 2)) && Do(s5, TableUnblock(1, 2)) == s6
      && Legal(s6, CacheUnblock(1, 2)) && Do(s6, CacheUnblock(1, 2)) == s7
      && Legal(s7, FillIn(0)) && Do(s7, FillIn(0)) == Shared({}, map[1 := {2}], multiset{}, multiset{}, map[])
  {
    SmallCaches();
    OneOff((1, 2));
    hide Filled, RemoveBlock;
    var fetched: map<ReaderId, set<Entry>> := map[0 := both];
    assert fetched - {0} == map[];
    var blocks: set<Block> := {(1, 2)};
    assert blocks - {(1, 2)} == {};
  }

  /** A block whose cache step comes after a whole unblock of it does the same. */
  lemma LateBlockOverreaches() returns (run: Steps)
    ensures LegalSteps(run) && Outcome(run) == Shared({}, map[1 := {2}, 2 := {1}], multiset{}, multiset{}, map[])
  {
    SmallCaches();
    OneOff((1, 2));
    hide AddBlock, RemoveBlock;
    var r1 := Then(Start, TableBlock(1, 2));
    var r2 := Then(r1, TableUnblock(1, 2));
    var r3 := Then(r2, CacheUnblock(1, 2));
    run := Then(r3, CacheBlock(1, 2));
    assert Outcome(r1) == Shared({(1, 2)}, map[], multiset{(1, 2)}, multiset{}, map[]);
    assert Outcome(r2) == Shared({}, map[], multiset{(1, 2)}, multiset{(1, 2)}, map[]);
    assert Outcome(r3) == Shared({}, map[], multiset{(1, 2)}, multiset{}, map[]);
  }
}
